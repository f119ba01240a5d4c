/** Bitwise OR with a single bit, on (two's complement) integers. */
module Bits {

  /** x | bit, where bit is a power of two. */
  function OrBit(x: int, bit: nat): (r: int)
    requires bit > 0
    ensures (x / bit) % 2 == 1 ==> r == x
    ensures (x / bit) % 2 == 0 ==> r == x + bit
  {
    if (x / bit) % 2 == 1 then x else x + bit
  }
}
