/** Python `bytes`: a sequence of unsigned 8-bit values. Shared by the bit
    codec and the `struct` packer, which both work on byte strings. */
module Octets {
  type Byte = bv8
  type Bytes = seq<Byte>
}
