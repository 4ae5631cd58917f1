/** What several components share. */
module Primitives {
  type Byte = b: nat | b < 0x100

  /** By how many months the table of a transaction index grows. */
  const RESIZE_STEP: nat := 100
}
