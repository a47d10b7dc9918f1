// The body of a read request (protocol/ReadRequestBody.java): exactly six
// bytes, the group address word followed by the datapoint main and sub numbers.
module ReadRequestBody {
  import opened Bytes
  import opened Wrappers
  import opened Failures
  import opened Text
  import opened KnxCore
  import ProtocolHelper

  const StructureLength: nat := 6

  datatype ReadRequestBody = ReadRequestBody(groupAddress: GroupAddress, dataPointType: DataPointType)

  /** ReadRequestBody.of: any length but six is refused with the bytes in the message. */
  function Of(registry: Registry, bytes: seq<uint8>): (r: Result<ReadRequestBody, Failure>)
    ensures r.Ok? <==> |bytes| == StructureLength
    ensures r.Err? ==> r.error == IllegalArgument("Wrong structure length: " + FormatHex(bytes))
    ensures r.Ok? ==> BigEndian(r.value.groupAddress.raw) == bytes[..2]
    ensures r.Ok? ==> r.value.dataPointType == ProtocolHelper.ParseDataPointType(registry, bytes[2..6])
  {
    if |bytes| != StructureLength then
      Err(IllegalArgument("Wrong structure length: " + FormatHex(bytes)))
    else
      Ok(ReadRequestBody(ProtocolHelper.ParseGroupAddress(bytes[..2]),
                         ProtocolHelper.ParseDataPointType(registry, bytes[2..6])))
  }
}
