/**
 The 8-bit byte shared by image channels and stored archive data.
 */
module Bytes {

  newtype byte = x: int | 0 <= x < 256
}
