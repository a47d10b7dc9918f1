// The read request the client sends (client/src/protocol/v1/read_request_body.rs):
// the three-byte header, then the group address and datapoint bytes.
module ClientReadRequest {
  import opened Bytes
  import opened Wrappers
  import ClientGroupAddress
  import Datapoint
  import ClientAction
  import ClientHeader
  import ClientProtocol

  datatype ProtocolError = ProtocolError(message: string)

  /** The message of a group address text the client cannot read. */
  function InvalidGroupAddress(groupAddress: string): string
  {
    "Invalid Group Address: " + groupAddress
  }

  /** The message of a datapoint text the client cannot read. */
  function InvalidDataPoint(datapoint: string): string
  {
    "Invalid Data Point Type: " + datapoint
  }

  /** The frame of an address and a datapoint: header, two address bytes, four datapoint bytes. */
  function Layout(ga: ClientGroupAddress.GroupAddress, dpt: Datapoint.DataPoint): (f: seq<uint8>)
    requires |ga.address| == 2
    ensures |f| == 9 && f[..3] == [0x01, 0x00, 0x06]
    ensures f[3..5] == ga.address && f[5..] == Datapoint.AsBytes(dpt)
  {
    var body := ClientGroupAddress.AsBytes(ga) + Datapoint.AsBytes(dpt);
    ClientHeader.AsBytes(ClientHeader.Header(1, ClientAction.ReadRequest, |body| % 0x100)) + body
  }

  /**
   * What `as_bytes` returns: the address is read first, then the datapoint;
   * a text either parser refuses is named in the error.
   */
  function Frame(groupAddress: string, datapoint: string): (r: Result<seq<uint8>, ProtocolError>)
    ensures r.Ok? <==> ClientGroupAddress.TryFrom(groupAddress).Ok? && Datapoint.TryFrom(datapoint).Ok?
    ensures ClientGroupAddress.TryFrom(groupAddress).Err? ==> r == Err(ProtocolError(InvalidGroupAddress(groupAddress)))
    ensures ClientGroupAddress.TryFrom(groupAddress).Ok? && Datapoint.TryFrom(datapoint).Err? ==>
      r == Err(ProtocolError(InvalidDataPoint(datapoint)))
    ensures r.Ok? ==> r.value == Layout(ClientGroupAddress.TryFrom(groupAddress).value, Datapoint.TryFrom(datapoint).value)
  {
    match ClientGroupAddress.TryFrom(groupAddress)
    case Err(_) => Err(ProtocolError(InvalidGroupAddress(groupAddress)))
    case Ok(ga) =>
      match Datapoint.TryFrom(datapoint)
      case Err(_) => Err(ProtocolError(InvalidDataPoint(datapoint)))
      case Ok(dpt) => Ok(Layout(ga, dpt))
  }

  /** `ReadRequestBody::as_bytes`: the body pushed byte by byte, then header and body glued. */
  method AsBytes(groupAddress: string, datapoint: string) returns (r: Result<seq<uint8>, ProtocolError>)
    ensures r == Frame(groupAddress, datapoint)
  {
    var body: seq<uint8> := [];
    var gaResult := ClientGroupAddress.TryFrom(groupAddress);
    if gaResult.Err? {
      return Err(ProtocolError(InvalidGroupAddress(groupAddress)));
    }
    var ga := gaResult.value;
    body := ClientProtocol.Append(body, ClientGroupAddress.AsBytes(ga));
    var dptResult := Datapoint.TryFrom(datapoint);
    if dptResult.Err? {
      return Err(ProtocolError(InvalidDataPoint(datapoint)));
    }
    var dpt := dptResult.value;
    body := ClientProtocol.Append(body, Datapoint.AsBytes(dpt));
    var ve := HeaderAndBody(ga, dpt, body);
    assert Frame(groupAddress, datapoint) == Ok(Layout(ga, dpt));
    return Ok(ve);
  }

  /** The header for the pushed body, then the header and the body glued. */
  method HeaderAndBody(ga: ClientGroupAddress.GroupAddress, dpt: Datapoint.DataPoint, body: seq<uint8>)
    returns (ve: seq<uint8>)
    requires |ga.address| == 2 && body == [] + ClientGroupAddress.AsBytes(ga) + Datapoint.AsBytes(dpt)
    ensures ve == Layout(ga, dpt)
  {
    var header := ClientHeader.AsBytes(ClientHeader.Header(1, ClientAction.ReadRequest, |body| % 0x100));
    ve := ClientProtocol.Glue(header, body);
    assert [] + ClientGroupAddress.AsBytes(ga) == ClientGroupAddress.AsBytes(ga);
  }
}
