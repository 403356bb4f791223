/** The unit both subsystems read and write: an unsigned char. */
module Bytes {

  newtype byte = x: int | 0 <= x < 0x100
}
