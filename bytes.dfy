/** Raw bytes, as the flag string and language names are given. */
module Bytes {
  type byte = x: int | 0 <= x < 256
}
