// The write request the client sends (client/src/protocol/v1/write_request_body.rs):
// the three-byte header, the group address and datapoint bytes, then the
// quoted values.
module ClientWriteRequest {
  import opened Bytes
  import opened Wrappers
  import opened AddressError
  import ClientGroupAddress
  import Datapoint
  import ClientAction
  import ClientHeader
  import ClientProtocol

  /** The boxed error `as_bytes` passes on: the address parser's or the datapoint parser's own. */
  datatype WriteRequestError =
    | AddressRejected(address: GroupAddressError)
    | DataPointRejected(dataPoint: Datapoint.DataPointError)

  /**
   * The frame of an address, a datapoint and values: version 1, the write
   * action and the body length narrowed to one octet (`as u8`), then the two
   * address bytes, the four datapoint bytes and the quoted values.
   */
  function Layout(ga: ClientGroupAddress.GroupAddress, dpt: Datapoint.DataPoint, values: seq<string>): (f: seq<uint8>)
    requires |ga.address| == 2
    ensures var q := ClientProtocol.QuotedFrom(values, 0);
      && |f| == 9 + |q|
      && f[..3] == [0x01, 0x01, (6 + |q|) % 0x100]
      && f[3..5] == ga.address
      && f[5..9] == Datapoint.AsBytes(dpt)
      && f[9..] == q
  {
    var body := ClientGroupAddress.AsBytes(ga) + Datapoint.AsBytes(dpt) + ClientProtocol.QuotedFrom(values, 0);
    ClientHeader.AsBytes(ClientHeader.Header(1, ClientAction.WriteRequest, |body| % 0x100)) + body
  }

  /**
   * What `as_bytes` returns: the address is read first, then the datapoint;
   * the refusing parser's error is passed on unchanged.
   */
  function Frame(groupAddress: string, datapoint: string, values: seq<string>): (r: Result<seq<uint8>, WriteRequestError>)
    ensures r.Ok? <==> ClientGroupAddress.TryFrom(groupAddress).Ok? && Datapoint.TryFrom(datapoint).Ok?
    ensures ClientGroupAddress.TryFrom(groupAddress).Err? ==>
      r == Err(AddressRejected(ClientGroupAddress.TryFrom(groupAddress).error))
    ensures ClientGroupAddress.TryFrom(groupAddress).Ok? && Datapoint.TryFrom(datapoint).Err? ==>
      r == Err(DataPointRejected(Datapoint.TryFrom(datapoint).error))
    ensures r.Ok? ==>
      r.value == Layout(ClientGroupAddress.TryFrom(groupAddress).value, Datapoint.TryFrom(datapoint).value, values)
  {
    match ClientGroupAddress.TryFrom(groupAddress)
    case Err(e) => Err(AddressRejected(e))
    case Ok(ga) =>
      match Datapoint.TryFrom(datapoint)
      case Err(e) => Err(DataPointRejected(e))
      case Ok(dpt) => Ok(Layout(ga, dpt, values))
  }

  /** `WriteRequestBody::as_bytes`: the body pushed byte by byte, then header and body glued. */
  method AsBytes(groupAddress: string, datapoint: string, values: seq<string>) returns (r: Result<seq<uint8>, WriteRequestError>)
    ensures r == Frame(groupAddress, datapoint, values)
  {
    var body: seq<uint8> := [];
    var gaResult := ClientGroupAddress.TryFrom(groupAddress);
    if gaResult.Err? {
      return Err(AddressRejected(gaResult.error));
    }
    var ga := gaResult.value;
    body := ClientProtocol.Append(body, ClientGroupAddress.AsBytes(ga));
    var dptResult := Datapoint.TryFrom(datapoint);
    if dptResult.Err? {
      return Err(DataPointRejected(dptResult.error));
    }
    var dpt := dptResult.value;
    body := ClientProtocol.Append(body, Datapoint.AsBytes(dpt));
    var quoted := ClientProtocol.ConvertValuesToUtf8Bytes(values);
    body := ClientProtocol.Append(body, quoted);
    var ve := HeaderAndBody(ga, dpt, values, body);
    assert Frame(groupAddress, datapoint, values) == Ok(Layout(ga, dpt, values));
    return Ok(ve);
  }

  /** The header for the pushed body, then the header and the body glued. */
  method HeaderAndBody(ga: ClientGroupAddress.GroupAddress, dpt: Datapoint.DataPoint, values: seq<string>, body: seq<uint8>)
    returns (ve: seq<uint8>)
    requires |ga.address| == 2
    requires body == [] + ClientGroupAddress.AsBytes(ga) + Datapoint.AsBytes(dpt) + ClientProtocol.QuotedFrom(values, 0)
    ensures ve == Layout(ga, dpt, values)
  {
    var header := ClientHeader.AsBytes(ClientHeader.Header(1, ClientAction.WriteRequest, |body| % 0x100));
    ve := ClientProtocol.Glue(header, body);
    LayoutOf(ga, dpt, values, body, header, ve);
  }

  /** The pushed bytes are the frame's layout. */
  lemma LayoutOf(ga: ClientGroupAddress.GroupAddress, dpt: Datapoint.DataPoint, values: seq<string>,
                 body: seq<uint8>, header: seq<uint8>, ve: seq<uint8>)
    requires |ga.address| == 2
    requires body == [] + ClientGroupAddress.AsBytes(ga) + Datapoint.AsBytes(dpt) + ClientProtocol.QuotedFrom(values, 0)
    requires header == ClientHeader.AsBytes(ClientHeader.Header(1, ClientAction.WriteRequest, |body| % 0x100))
    requires ve == header + body
    ensures ve == Layout(ga, dpt, values)
  {
    assert [] + ClientGroupAddress.AsBytes(ga) == ClientGroupAddress.AsBytes(ga);
  }

  /** The length field is the body length exactly when the body is shorter than 256 bytes. */
  lemma LengthField(ga: ClientGroupAddress.GroupAddress, dpt: Datapoint.DataPoint, values: seq<string>)
    requires |ga.address| == 2
    ensures var f := Layout(ga, dpt, values);
      f[2] == |f| - 3 <==> |f| - 3 < 0x100
  {
  }
}
