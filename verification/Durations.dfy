/** Go durations: 64-bit counts of nanoseconds. Instants are nanoseconds on one clock. */
module Durations {

  const MAX_DURATION := 0x7fff_ffff_ffff_ffff
  const MIN_DURATION := -0x8000_0000_0000_0000
  const MILLISECOND := 1_000_000
  const MINUTE := 60_000 * MILLISECOND

  /** Subtracting instants saturates at the ends of the 64-bit range. */
  function Sub(a: int, b: int): (r: int)
    ensures MIN_DURATION <= r <= MAX_DURATION
    ensures r == a - b || r == MAX_DURATION < a - b || a - b < MIN_DURATION == r
  {
    if a - b > MAX_DURATION then MAX_DURATION
    else if a - b < MIN_DURATION then MIN_DURATION
    else a - b
  }

  /** Whole milliseconds, truncated toward zero. */
  function Milliseconds(d: int): int {
    if d >= 0 then d / MILLISECOND else -(-d / MILLISECOND)
  }
}
