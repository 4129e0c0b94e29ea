// Fixed constants of the context-switch benchmark and the machine integer
// ranges its C arithmetic runs in.
module Config {
  /** Size of one working-set page, and of the shared segment's header. */
  const PageSize: nat := 4096

  /** Total memory traffic (4 GiB) the iteration count must reach. */
  const TrafficFloor: nat := 0x1_0000_0000

  /** First value of the iteration count, and the amount it grows by. */
  const Step: nat := 1000

  /** Modulus of `unsigned long long` arithmetic. */
  const U64Modulus: nat := 0x1_0000_0000_0000_0000

  /** Largest value of a signed 32-bit `int`. */
  const Int32Max: int := 0x7FFF_FFFF

  /** Switches counted per round trip of the handoff loop (a fixed convention). */
  const SwitchesPerIteration: nat := 4

  /** Product of two `unsigned long long` operands, wrapping modulo 2^64. */
  function MulU64(a: nat, b: nat): (r: nat)
    ensures r < U64Modulus
    ensures a * b < U64Modulus ==> r == a * b
  {
    (a * b) % U64Modulus
  }

  /** An `unsigned char`: one byte of a buffer. */
  newtype byte = x: int | 0 <= x < 256

  /**
   * C's conversion of an `int` to `unsigned char` (what memset stores): the
   * byte congruent to `v` modulo 256, which is `v` itself when it fits.
   */
  function ByteOf(v: int): (b: byte)
    ensures (b as int - v) % 256 == 0
    ensures 0 <= v < 256 ==> b as int == v
  {
    (v % 256) as byte
  }
}
