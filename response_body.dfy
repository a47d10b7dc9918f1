// The body of every gateway reply (protocol/ResponseBody.java): a first byte
// holding the last-packet flag (bit 7) and the status (low bits), a reserved
// zero byte, and the reply's data, usually a UTF-8 message.
module ResponseBody {
  import opened Bytes
  import opened Wrappers
  import opened Failures
  import opened Text
  import opened ServerStatus
  import Utf8

  const MinStructureLength: nat := 2

  datatype ResponseBody = ResponseBody(lastPacket: bool, status: Status, data: seq<uint8>)

  /** ResponseBody.of(lastPacket, status): no data. */
  function Empty(lastPacket: bool, status: Status): (r: ResponseBody)
    ensures r.lastPacket == lastPacket && r.status == status && |r.data| == 0
  {
    ResponseBody(lastPacket, status, [])
  }

  /**
   * ResponseBody.of(lastPacket, status, message): a missing or blank message
   * gives no data, any other message its UTF-8 bytes.
   */
  function WithMessage(lastPacket: bool, status: Status, message: Option<string>): (r: ResponseBody)
    ensures r.lastPacket == lastPacket && r.status == status
    ensures message.None? || IsBlank(message.value) <==> |r.data| == 0
    ensures message.Some? && !IsBlank(message.value) ==> Utf8.Decode(r.data) == message.value
  {
    if message.None? || IsBlank(message.value) then ResponseBody(lastPacket, status, [])
    else
      Utf8.DecodeEncode(message.value);
      assert message.value != [] ==> |Utf8.Encode(message.value)| > 0;
      ResponseBody(lastPacket, status, Utf8.Encode(message.value))
  }

  /** The first byte: `0x80` when last, or-ed with the status byte (which stays below 0x80). */
  function Byte1(r: ResponseBody): (b: uint8)
  {
    (if r.lastPacket then 0x80 else 0x00) + GetByte(r.status)
  }

  /** ResponseBody.getBytes. */
  function GetBytes(r: ResponseBody): (bytes: seq<uint8>)
    ensures |bytes| == |r.data| + MinStructureLength
  {
    [Byte1(r), 0x00] + r.data
  }

  /**
   * ResponseBody.of(bytes): at least two bytes; bit 7 of the first byte is the
   * last-packet flag and its low nibble the status code; the reserved byte is
   * ignored; the rest is the data.
   */
  function Decode(bytes: seq<uint8>): (r: Result<ResponseBody, Failure>)
    ensures |bytes| < MinStructureLength ==> r.Err? && r.error.IllegalArgument?
    ensures r.Ok? ==> r.value.data == bytes[2..] && (r.value.lastPacket <==> bytes[0] >= 0x80)
    ensures |bytes| >= MinStructureLength ==> (r.Ok? <==> bytes[0] % 0x10 < 7)
    ensures r.Ok? ==> Code(r.value.status) == bytes[0] % 0x10
    ensures |bytes| >= MinStructureLength && bytes[0] % 0x10 >= 7 ==> r == Err(EnumNotFound(bytes[0] % 0x10))
  {
    if |bytes| < MinStructureLength then
      Err(IllegalArgument("Bytes must not be null and minimum 2 bytes: " + FormatHex(bytes)))
    else
      match Of(bytes[0] % 0x10)
      case Ok(status) => Ok(ResponseBody(bytes[0] / 0x80 == 1, status, bytes[2..]))
      case Err(e) => Err(e)
  }

  /** Every body survives its byte form. */
  lemma DecodeGetBytes(r: ResponseBody)
    ensures Decode(GetBytes(r)) == Ok(r)
  {
    var bytes := GetBytes(r);
    assert bytes[0] % 0x10 == Code(r.status);
    OfCode(r.status);
    assert bytes[2..] == r.data;
  }

  /**
   * Conversely, a byte form is reproduced exactly when its reserved byte is
   * zero and bits 4 to 6 of its first byte are clear: those bits are dropped
   * on reading.
   */
  lemma GetBytesDecode(bytes: seq<uint8>)
    requires Decode(bytes).Ok?
    ensures GetBytes(Decode(bytes).value) == bytes <==> bytes[1] == 0 && (bytes[0] / 0x10) % 8 == 0
  {
    var r := Decode(bytes).value;
    assert Code(r.status) == bytes[0] % 0x10;
    if bytes[1] == 0 && (bytes[0] / 0x10) % 8 == 0 {
      assert Byte1(r) == bytes[0];
      assert GetBytes(r) == [bytes[0], bytes[1]] + bytes[2..];
      assert [bytes[0], bytes[1]] + bytes[2..] == bytes;
    }
  }

  /** A body that is not last and succeeded is the two bytes `00 00`. */
  lemma EmptySuccessBytes()
    ensures GetBytes(Empty(false, Success)) == [0x00, 0x00]
  {
  }

  /** The first byte for a last incompatible-type reply is `0x85`, for a non-last timeout `0x03`. */
  lemma FirstByteExamples()
    ensures Byte1(Empty(true, ErrorIncompatibleDataPointType)) == 0x85
    ensures Byte1(Empty(false, ErrorTimeout)) == 0x03
  {
  }

  /** ResponseBody.getBytes, building the new array in place. */
  method ToArray(r: ResponseBody) returns (a: array<uint8>)
    ensures fresh(a) && a[..] == GetBytes(r)
  {
    a := new uint8[|r.data| + 2];
    a[0] := Byte1(r);
    a[1] := 0x00;
    var i := 0;
    while i < |r.data|
      invariant 0 <= i <= |r.data|
      invariant a[0] == Byte1(r) && a[1] == 0x00
      invariant forall k :: 0 <= k < i ==> a[k + 2] == r.data[k]
      decreases |r.data| - i
    {
      a[i + 2] := r.data[i];
      i := i + 1;
    }
    assert a[..] == GetBytes(r);
  }
}
