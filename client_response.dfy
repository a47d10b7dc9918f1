// The response the client reads back (client/src/protocol/v1/response_body.rs):
// the last-packet flag from bit 7 of the first byte, the status from the
// second byte, the data after them. The decoder never returns its error
// value; a short input or an unknown status byte panics instead, and the
// model names the panic.
module ClientResponse {
  import opened Bytes
  import opened Wrappers
  import opened Text
  import ClientStatus
  import Utf8

  datatype ResponseBody = ResponseBody(lastPacket: bool, status: ClientStatus.Status, data: seq<uint8>)

  /**
   * How decoding stops: an index past the input, or the `expect` on the
   * status, whose message ends with the Debug form of the status error.
   */
  datatype Panic = IndexOutOfRange | StatusNotFound(message: string)

  /** The error `from_utf8` reports. */
  datatype Utf8Error = Utf8Error

  /** `TryFrom<&[u8]>`: byte 0 is read first, then byte 1. */
  function TryFrom(value: seq<uint8>): (r: Result<ResponseBody, Panic>)
    ensures r.Ok? <==> |value| >= 2 && value[1] < 7
    ensures |value| < 2 ==> r == Err(IndexOutOfRange)
    ensures |value| >= 2 && value[1] >= 7 ==> r == Err(StatusNotFound("Status not found: " + Decimal(value[1]) + ": UnknownStatusError"))
    ensures r.Ok? ==> (r.value.lastPacket <==> value[0] >= 0x80)
    ensures r.Ok? ==> ClientStatus.ToByte(r.value.status) == value[1]
    ensures r.Ok? ==> r.value.data == value[2..]
  {
    if |value| < 2 then Err(IndexOutOfRange)
    else
      match ClientStatus.TryFrom(value[1])
      case Err(_) => Err(StatusNotFound("Status not found: " + Decimal(value[1]) + ": UnknownStatusError"))
      case Ok(status) => Ok(ResponseBody(value[0] >= 0x80, status, value[2..]))
  }

  /**
   * `message`: the data as text when it is well-formed UTF-8. Data is
   * well-formed exactly when it is the encoding of some text, and decoding
   * recovers that text, so the test below is `from_utf8`'s.
   */
  function Message(b: ResponseBody): (r: Result<string, Utf8Error>)
    ensures r.Ok? ==> Utf8.Encode(r.value) == b.data
  {
    var text := Utf8.Decode(b.data);
    if Utf8.Encode(text) == b.data then Ok(text) else Err(Utf8Error)
  }

  /** The data of a text message reads back as that text. */
  lemma MessageOfText(lastPacket: bool, status: ClientStatus.Status, s: string)
    ensures Message(ResponseBody(lastPacket, status, Utf8.Encode(s))) == Ok(s)
  {
    Utf8.DecodeEncode(s);
  }

  /** Data that is no text's encoding is refused. */
  lemma MessageRefuses(b: ResponseBody)
    requires forall s: string {:trigger Utf8.Encode(s)} :: Utf8.Encode(s) != b.data
    ensures Message(b) == Err(Utf8Error)
  {
  }

  /** Every response the decoder accepts is the image of a body: flag bit, status byte, data. */
  lemma {:induction false} DecodeShape(value: seq<uint8>)
    requires TryFrom(value).Ok?
    ensures var b := TryFrom(value).value;
      value == [value[0], ClientStatus.ToByte(b.status)] + b.data
  {
    assert value == value[..2] + value[2..];
  }
}
