/** Values shared by the whole model of spi-pipe. */
module Basics {

  /** An unsigned 8-bit value: the element type of the transfer buffers (uint8_t). */
  newtype byte = x: int | 0 <= x < 256

  datatype Option<+T> = None | Some(value: T)

  /** A block of n zero bytes, as memset(buf, 0, n) leaves it. */
  function Zeros(n: nat): (z: seq<byte>)
    ensures |z| == n
    ensures forall i :: 0 <= i < n ==> z[i] == 0
  {
    seq(n, _ => 0)
  }
}
