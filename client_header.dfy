// The three-byte header the client puts in front of a request
// (client/src/protocol/header.rs): version, action and body length, each one
// octet.
module ClientHeader {
  import opened Bytes
  import opened ClientAction

  datatype Header = Header(version: uint8, action: Action, length: uint8)

  /** `Header::new(action, length)`: the version is always 1. */
  function New(action: Action, length: uint8): (h: Header)
    ensures h.version == 1 && h.action == action && h.length == length
  {
    Header(1, action, length)
  }

  /** `as_bytes`: version, action code, length. */
  function AsBytes(h: Header): (r: seq<uint8>)
    ensures |r| == 3 && r[0] == h.version && r[1] == ToByte(h.action) && r[2] == h.length
  {
    [h.version, ToByte(h.action), h.length]
  }

  /** The bytes of a header determine it. */
  lemma AsBytesInjective(g: Header, h: Header)
    requires AsBytes(g) == AsBytes(h)
    ensures g == h
  {
    assert AsBytes(g)[1] == AsBytes(h)[1];
  }

  /** The read header of length 13 and the write header of length 17. */
  lemma Examples()
    ensures AsBytes(New(ReadRequest, 13)) == [0x01, 0x00, 0x0D]
    ensures AsBytes(New(WriteRequest, 17)) == [0x01, 0x01, 0x11]
  {
  }
}
