/** The sizes that several parts of the kernel share. */
module Limits {
  const TERMINALS := 3
  const PROCESSES := 6
}
