// The action of a request in the two-byte header revision (Action.java).
module ServerAction {
  import opened Bytes

  datatype Action = ReadRequest | WriteRequest

  /** The enum constants in declaration order; the two-byte header indexes this list. */
  const Values: seq<Action> := [ReadRequest, WriteRequest]

  function Code(a: Action): (c: uint8)
    ensures c < |Values| && Values[c] == a
  {
    match a
    case ReadRequest => 0x00
    case WriteRequest => 0x01
  }

  /** Action.getByte, written as `code % 0xFF`. */
  function GetByte(a: Action): (b: uint8)
    ensures b == Code(a)
  {
    Code(a) % 0xFF
  }
}
