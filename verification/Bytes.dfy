module Bytes {
  type Byte = b: int | 0 <= b < 256
  type Buffer = seq<Byte>

  // Of an account; normally of twenty bytes.
  type Address = Buffer

  /** A big-endian number; no bytes stand for zero. */
  function Number(bytes: Buffer): nat {
    if bytes == [] then 0 else Number(bytes[..|bytes| - 1]) * 256 + bytes[|bytes| - 1]
  }
}
