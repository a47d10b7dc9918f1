// The two-byte request header of the older wire revision (protocol/Header.java):
// a version octet and an action octet that indexes the action constants.
module Header {
  import opened Bytes
  import opened Wrappers
  import opened Failures
  import opened ServerAction

  const StructureLength: nat := 2

  datatype Header = Header(version: uint8, action: Action)

  /**
   * Header.of: exactly two bytes; the action octet is an index into the
   * action constants, so an octet of 2 or more fails as an index out of bounds.
   */
  function Of(bytes: seq<uint8>): (r: Result<Header, Failure>)
    ensures r.Ok? <==> |bytes| == StructureLength && bytes[1] < |Values|
    ensures r.Ok? ==> r.value.version == bytes[0] && Code(r.value.action) == bytes[1]
    ensures |bytes| != StructureLength ==> r == Err(IllegalArgument(""))
    ensures |bytes| == StructureLength && bytes[1] >= |Values| ==> r == Err(IndexOutOfBounds)
  {
    if |bytes| != StructureLength then Err(IllegalArgument(""))
    else if bytes[1] >= |Values| then Err(IndexOutOfBounds)
    else Ok(Header(bytes[0], Values[bytes[1]]))
  }

  /** The bytes a header stands for: decoding them gives the header back. */
  lemma OfBytes(h: Header)
    ensures Of([h.version, GetByte(h.action)]) == Ok(h)
  {
  }
}
