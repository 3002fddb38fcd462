// The sizes that admission, decryption and the request parser share (protocol.h, admission.h).
module Limits {
  const MAX_PLAINTEXT: int := 5 * 1024 * 1024 * 1024
  const BUDGET: int := 16 * 1024 * 1024 * 1024
  const RESERVE_MULT: int := 3
}
