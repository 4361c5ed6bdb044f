/** Byte strings, the values Python 2's `str` holds and its codecs work on. */
module Bytes {

  type Byte = b: int | 0 <= b < 256
}
