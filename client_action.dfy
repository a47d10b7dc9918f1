// The request actions the client sends (client/src/protocol/action.rs).
module ClientAction {
  import opened Bytes

  datatype Action = ReadRequest | WriteRequest

  /** `Into<u8>`: read is 0, write is 1. */
  function ToByte(a: Action): (b: uint8)
    ensures b < 2
    ensures b == 0 <==> a == ReadRequest
  {
    match a
    case ReadRequest => 0x00
    case WriteRequest => 0x01
  }
}
