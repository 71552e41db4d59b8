/** Bounds and units that several components share. */
module Limits {
  // Nanoseconds.
  const SECOND := 1_000_000_000

  type Positive = n: int | n > 0 witness 1

  const MAX_TENANT_LEN := 64
  const MAX_PATH_LEN := 512
}
