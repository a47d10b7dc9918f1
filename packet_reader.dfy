// The field readers of the first wire revision (protocol/v1/PacketReader.java):
// version, action, group address word, datatype point numbers, and the
// NUL-terminated arguments from byte 8 on. Each reads the packet at fixed
// offsets, so a packet that is too short fails with an index out of bounds.
module PacketReader {
  import opened Bytes
  import opened Wrappers
  import opened Failures
  import opened Text
  import opened KnxCore
  import ProtocolHelper
  import ArgumentParser

  const ProtocolVersion: nat := 1

  /** The reader's own action constants, indexed by the action octet. */
  datatype Action = ReadRequest | WriteRequest

  const Values: seq<Action> := [ReadRequest, WriteRequest]

  function GetVersion(bytes: seq<uint8>): (r: Result<uint8, Failure>)
    ensures r.Ok? <==> |bytes| >= 1
    ensures r.Ok? ==> r.value == bytes[0]
  {
    if |bytes| < 1 then Err(IndexOutOfBounds) else Ok(bytes[0])
  }

  function GetAction(bytes: seq<uint8>): (r: Result<Action, Failure>)
    ensures r.Ok? <==> |bytes| >= 2 && bytes[1] < 2
    ensures r.Ok? ==> r.value == Values[bytes[1]]
  {
    if |bytes| < 2 || bytes[1] >= |Values| then Err(IndexOutOfBounds) else Ok(Values[bytes[1]])
  }

  function GetGroupAddress(bytes: seq<uint8>): (r: Result<GroupAddress, Failure>)
    ensures r.Ok? <==> |bytes| >= 4
    ensures r.Ok? ==> BigEndian(r.value.raw) == bytes[2..4]
  {
    if |bytes| < 4 then Err(IndexOutOfBounds) else Ok(GroupAddress(Word(bytes[2], bytes[3])))
  }

  /** The subtype entry, else the main type's entry; with neither, the look-up fails. */
  function GetDataPointType(registry: Registry, bytes: seq<uint8>): (r: Result<DataPointType, Failure>)
    ensures |bytes| < 8 ==> r == Err(IndexOutOfBounds)
    ensures |bytes| >= 8 ==>
      var sub := ProtocolHelper.SubTypeKey(Word(bytes[4], bytes[5]), Word(bytes[6], bytes[7]));
      var main := ProtocolHelper.MainTypeKey(Word(bytes[4], bytes[5]));
      && (r.Ok? <==> sub in registry || main in registry)
      && (r.Ok? ==> r.value == if sub in registry then registry[sub] else registry[main])
      && (r.Err? ==> r.error == DataPointTypeNotFound)
  {
    if |bytes| < 8 then Err(IndexOutOfBounds)
    else
      var main := Word(bytes[4], bytes[5]);
      var sub := Word(bytes[6], bytes[7]);
      match Lookup(registry, ProtocolHelper.SubTypeKey(main, sub))
      case Ok(t) => Ok(t)
      case Err(_) => Lookup(registry, ProtocolHelper.MainTypeKey(main))
  }

  /**
   * This reader and the helper of the later revision agree wherever this one
   * finds a type; where it fails to find one the helper falls back to raw.
   */
  lemma GetDataPointTypeAgrees(registry: Registry, bytes: seq<uint8>)
    requires |bytes| >= 8 && WellFormed(registry)
    ensures GetDataPointType(registry, bytes).Ok? ==>
      GetDataPointType(registry, bytes).value == ProtocolHelper.ParseDataPointType(registry, bytes[4..8])
    ensures GetDataPointType(registry, bytes).Err? <==> ProtocolHelper.ParseDataPointType(registry, bytes[4..8]) == Raw
    ensures GetDataPointType(registry, bytes).Err? ==> GetDataPointType(registry, bytes).error == DataPointTypeNotFound
  {
    ProtocolHelper.ParseDataPointTypeResolution(registry, bytes[4..8]);
  }

  /**
   * getArgs: the last byte must be the NUL terminator; a nine-byte packet has
   * no arguments, which is what tokenizing its empty content gives too;
   * otherwise bytes 8 up to the terminator are tokenized. A terminated packet
   * of at most eight bytes asks for a reversed range.
   */
  function GetArgs(bytes: seq<uint8>): (r: Result<seq<string>, Failure>)
    ensures |bytes| == 0 ==> r == Err(IndexOutOfBounds)
    ensures |bytes| > 0 && bytes[|bytes| - 1] != 0x00 ==> r == Err(IllegalArgument("No NULL termination?: " + FormatHex(bytes)))
    ensures |bytes| >= 9 && bytes[|bytes| - 1] == 0x00 ==> r == ArgumentParser.Arguments(bytes[8..|bytes| - 1])
    ensures r.Ok? ==> |bytes| >= 9 && ArgumentParser.NoEmpty(r.value)
  {
    if |bytes| == 0 then Err(IndexOutOfBounds)
    else if bytes[|bytes| - 1] != 0x00 then Err(IllegalArgument("No NULL termination?: " + FormatHex(bytes)))
    else if |bytes| == 9 then Ok([])
    else if |bytes| - 1 < 8 then Err(IllegalArgument("8 > " + Decimal(|bytes| - 1)))
    else
      ArgumentParser.ArgumentsNoEmpty(bytes[8..|bytes| - 1]);
      ArgumentParser.Arguments(bytes[8..|bytes| - 1])
  }

  /** What getArgs returns, in terms of the packet's shape. */
  lemma GetArgsShape(prefix: seq<uint8>, content: seq<uint8>)
    requires |prefix| == 8
    ensures GetArgs(prefix + content + [0x00]) == ArgumentParser.Arguments(content)
  {
    var bytes := prefix + content + [0x00];
    assert bytes[8..|bytes| - 1] == content;
  }

  /** getArgs refuses a packet whose last byte is not NUL, and one of at most eight bytes. */
  lemma GetArgsRefuses(bytes: seq<uint8>)
    ensures |bytes| > 0 && bytes[|bytes| - 1] != 0x00 ==> GetArgs(bytes).Err? && GetArgs(bytes).error.IllegalArgument?
    ensures |bytes| <= 8 ==> GetArgs(bytes).Err?
  {
  }
}
