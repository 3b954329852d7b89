/** Bytes and hardware addresses. */
module Bytes {
  newtype byte = b: int | 0 <= b < 256

  /** A net.HardwareAddr. */
  type MAC = seq<byte>
}
