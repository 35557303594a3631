/** Machine integers, bytes and the failure type shared by the whole model.
    Go's fixed-width integers are modelled as bounded subsets of `int`; every
    wrap-around in the source is written out where it happens. */
module Base {

  const TWO8: nat := 0x100
  const TWO32: nat := 0x1_0000_0000
  const TWO53: nat := 0x20_0000_0000_0000
  const TWO63: nat := 0x8000_0000_0000_0000
  const MIN_INT64: int := -0x8000_0000_0000_0000
  const TWO64: nat := 0x1_0000_0000_0000_0000

  type byte = x: int | 0 <= x < 0x100
  type uint32 = x: int | 0 <= x < 0x1_0000_0000
  type uint64 = x: int | 0 <= x < 0x1_0000_0000_0000_0000

  /** Go's `int` on a 64-bit platform. */
  type int64 = x: int | -0x8000_0000_0000_0000 <= x < 0x8000_0000_0000_0000

  /** A Go `[]byte` (and a Go `string`, which is a read-only byte sequence). */
  type Bytes = seq<byte>

  /** Why a constructor refused its arguments or a generation step panicked. */
  datatype Fault =
    | MaxIsZero          // Repeat: "max must be > 0"
    | MaxBelowMin        // Repeat: "max must be >= min"
    | NegativeChance     // Potentially: "chance must be > 0"
    | MaxBelowStart      // Sequence: "max must be >= min"
    | IndexOutOfRange    // a slice index at generation time is out of range

  datatype Result<+T> = Ok(value: T) | Err(fault: Fault)

  function Max(a: int, b: int): int
  {
    if a < b then b else a
  }
}
