/** Shared vocabulary: optional values and the clock. */
module Prelude {

  datatype Option<+T> = None | Some(value: T)

  /** Nanoseconds on the clock; each module says what moment 0 is where it matters. */
  type Time = int

  const SECOND: int := 1_000_000_000
  const MINUTE: int := 60 * SECOND
}
