/** What accounts on chain hold. */
module Bytes {
  type Byte = b: int | 0 <= b < 256
}
