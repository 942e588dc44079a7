/** Python `bytes` are modelled as sequences of integers in 0..255. */
module Bytes {

  type byte = x: int | 0 <= x < 256
}
