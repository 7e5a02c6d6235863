/** An int used as a set of flags: | is union, & intersection, & ~ difference. */
module Bits {
  type Bit = b: nat | b < 32
  type Mask = set<Bit>
}
