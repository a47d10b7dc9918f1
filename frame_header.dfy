// The three-byte header of the current wire revision, as the gateway's
// dispatcher reads it and its writer produces it: version, action code and the
// length of the body that follows.
module FrameHeader {
  import opened Bytes
  import opened Wrappers
  import opened Failures

  /** Actions of the three-byte revision; requests come in, responses go out. */
  datatype FrameAction = ReadRequest | WriteRequest | ReadResponse | WriteResponse | GeneralMessage

  /**
   * Action codes. The request codes are the ones the client sends; the
   * response codes are placeholders (they only need to be distinct).
   */
  function Code(a: FrameAction): (c: uint8)
    ensures c < 5
  {
    match a
    case ReadRequest => 0x00
    case WriteRequest => 0x01
    case ReadResponse => 0x02
    case WriteResponse => 0x03
    case GeneralMessage => 0x04
  }

  /** Look-up of an action by its code; an unknown code is an enum-not-found failure. */
  function ActionOf(code: uint8): (r: Result<FrameAction, Failure>)
    ensures r.Ok? <==> code < 5
    ensures r.Ok? ==> Code(r.value) == code
    ensures r.Err? ==> r.error == EnumNotFound(code)
  {
    if code == 0x00 then Ok(ReadRequest)
    else if code == 0x01 then Ok(WriteRequest)
    else if code == 0x02 then Ok(ReadResponse)
    else if code == 0x03 then Ok(WriteResponse)
    else if code == 0x04 then Ok(GeneralMessage)
    else Err(EnumNotFound(code))
  }

  datatype FrameHeader = FrameHeader(version: uint8, action: FrameAction, length: uint8)

  /** `Header.of(version, action, length)`: the length is narrowed to one octet. */
  function Make(version: uint8, action: FrameAction, length: nat): (h: FrameHeader)
    ensures length < 0x100 ==> h.length == length
  {
    FrameHeader(version, action, length % 0x100)
  }

  function ToBytes(h: FrameHeader): (r: seq<uint8>)
    ensures |r| == 3
  {
    [h.version, Code(h.action), h.length]
  }

  /** `Header.of(b0, b1, b2)`: version and length as read, the action by its code. */
  function Decode(b0: uint8, b1: uint8, b2: uint8): (r: Result<FrameHeader, Failure>)
    ensures r.Ok? <==> b1 < 5
    ensures r.Ok? ==> ToBytes(r.value) == [b0, b1, b2]
  {
    match ActionOf(b1)
    case Ok(a) => Ok(FrameHeader(b0, a, b2))
    case Err(e) => Err(e)
  }

  lemma {:induction false} ActionOfCode(a: FrameAction)
    ensures ActionOf(Code(a)) == Ok(a)
  {
    match a
    case ReadRequest =>
    case WriteRequest =>
    case ReadResponse =>
    case WriteResponse =>
    case GeneralMessage =>
  }

  /** A header survives its own byte form. */
  lemma DecodeToBytes(h: FrameHeader)
    ensures Decode(ToBytes(h)[0], ToBytes(h)[1], ToBytes(h)[2]) == Ok(h)
  {
    ActionOfCode(h.action);
  }
}
