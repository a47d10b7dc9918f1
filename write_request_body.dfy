// The body of a write request (protocol/WriteRequestBody.java): at least six
// bytes, the group address word, the datapoint main and sub numbers, then the
// textual arguments as UTF-8.
module WriteRequestBody {
  import opened Bytes
  import opened Wrappers
  import opened Failures
  import opened Text
  import opened KnxCore
  import ProtocolHelper
  import ArgumentParser

  const MinStructureLength: nat := 6

  datatype WriteRequestBody = WriteRequestBody(groupAddress: GroupAddress, dataPointType: DataPointType, arguments: seq<string>)

  /**
   * WriteRequestBody.of: fewer than six bytes are refused; the bytes after the
   * sixth are tokenized into the arguments, and a tokenizer failure propagates.
   */
  function Of(registry: Registry, bytes: seq<uint8>): (r: Result<WriteRequestBody, Failure>)
    ensures |bytes| < MinStructureLength ==> r == Err(IllegalArgument("Wrong structure length (min): " + FormatHex(bytes)))
    ensures |bytes| >= MinStructureLength ==> (r.Ok? <==> ArgumentParser.Arguments(bytes[6..]).Ok?)
    ensures r.Ok? ==> BigEndian(r.value.groupAddress.raw) == bytes[..2]
    ensures r.Ok? ==> r.value.dataPointType == ProtocolHelper.ParseDataPointType(registry, bytes[2..6])
    ensures r.Ok? ==> r.value.arguments == ArgumentParser.Arguments(bytes[6..]).value
  {
    if |bytes| < MinStructureLength then
      Err(IllegalArgument("Wrong structure length (min): " + FormatHex(bytes)))
    else
      match ProtocolHelper.ParseArguments(bytes[6..])
      case Ok(args) =>
        Ok(WriteRequestBody(ProtocolHelper.ParseGroupAddress(bytes[..2]),
                            ProtocolHelper.ParseDataPointType(registry, bytes[2..6]), args))
      case Err(e) => Err(e)
  }

  /** A body of exactly six bytes carries no arguments. */
  lemma SixBytesNoArguments(registry: Registry, bytes: seq<uint8>)
    requires |bytes| == MinStructureLength
    ensures Of(registry, bytes).Ok? && Of(registry, bytes).value.arguments == []
  {
  }

  /** No argument of a write request is empty. */
  lemma ArgumentsNotEmpty(registry: Registry, bytes: seq<uint8>)
    requires Of(registry, bytes).Ok?
    ensures forall k :: 0 <= k < |Of(registry, bytes).value.arguments| ==> |Of(registry, bytes).value.arguments[k]| > 0
  {
    ArgumentParser.ArgumentsNoEmpty(bytes[6..]);
  }
}
