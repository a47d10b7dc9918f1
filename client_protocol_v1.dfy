// The older client protocol (client/src/protocol_v1/protocol.rs): no header
// length, the action straight after the version, and the values of a write
// closed by a NUL byte. Invalid address or datapoint texts make `unwrap`
// panic; the model names the panic. The action the header holds is taken as
// the current protocol's read/write action (the older header and action
// files are not part of this model).
module ClientProtocolV1 {
  import opened Bytes
  import opened Wrappers
  import opened AddressError
  import ClientGroupAddress
  import Datapoint
  import ClientAction
  import ClientProtocol

  /** The `unwrap` that fails, with the error it was given. */
  datatype Panic =
    | AddressUnwrapped(address: GroupAddressError)
    | DataPointUnwrapped(dataPoint: Datapoint.DataPointError)

  const Terminator: uint8 := 0x00

  /** The older `convert_values_to_utf8_bytes`: the same quoting, then the NUL terminator. */
  method ConvertValuesToUtf8Bytes(values: seq<string>) returns (ve: seq<uint8>)
    ensures ve == ClientProtocol.QuotedFrom(values, 0) + [Terminator]
  {
    ve := ClientProtocol.ConvertValuesToUtf8Bytes(values);
    ve := ve + [Terminator];
  }

  /**
   * The bytes of the older layout: version 1, the action code, two address
   * bytes, four datapoint bytes, and for a write the terminated values.
   */
  function Layout(action: ClientAction.Action, ga: ClientGroupAddress.GroupAddress, dpt: Datapoint.DataPoint,
                  values: seq<string>): (f: seq<uint8>)
    requires |ga.address| == 2
    ensures |f| >= 8 && f[..2] == [0x01, ClientAction.ToByte(action)]
    ensures f[2..4] == ga.address && f[4..8] == Datapoint.AsBytes(dpt)
    ensures action == ClientAction.ReadRequest ==> |f| == 8
    ensures action == ClientAction.WriteRequest ==> f[8..] == ClientProtocol.QuotedFrom(values, 0) + [Terminator]
  {
    [0x01, ClientAction.ToByte(action)] + ClientGroupAddress.AsBytes(ga) + Datapoint.AsBytes(dpt)
      + (if action == ClientAction.WriteRequest then ClientProtocol.QuotedFrom(values, 0) + [Terminator] else [])
  }

  /** What `Protocol::as_bytes` returns, or the panic it stops with; it never returns its own error. */
  function Frame(action: ClientAction.Action, groupAddress: string, datapoint: string, values: seq<string>): (r: Result<seq<uint8>, Panic>)
    ensures r.Ok? <==> ClientGroupAddress.TryFrom(groupAddress).Ok? && Datapoint.TryFrom(datapoint).Ok?
    ensures ClientGroupAddress.TryFrom(groupAddress).Err? ==>
      r == Err(AddressUnwrapped(ClientGroupAddress.TryFrom(groupAddress).error))
    ensures ClientGroupAddress.TryFrom(groupAddress).Ok? && Datapoint.TryFrom(datapoint).Err? ==>
      r == Err(DataPointUnwrapped(Datapoint.TryFrom(datapoint).error))
    ensures r.Ok? ==>
      r.value == Layout(action, ClientGroupAddress.TryFrom(groupAddress).value, Datapoint.TryFrom(datapoint).value, values)
  {
    match ClientGroupAddress.TryFrom(groupAddress)
    case Err(e) => Err(AddressUnwrapped(e))
    case Ok(ga) =>
      match Datapoint.TryFrom(datapoint)
      case Err(e) => Err(DataPointUnwrapped(e))
      case Ok(dpt) => Ok(Layout(action, ga, dpt, values))
  }

  /** `Protocol::as_bytes`, pushing byte by byte. */
  method AsBytes(action: ClientAction.Action, groupAddress: string, datapoint: string, values: seq<string>)
    returns (r: Result<seq<uint8>, Panic>)
    ensures r == Frame(action, groupAddress, datapoint, values)
  {
    var ve: seq<uint8> := [0x01, ClientAction.ToByte(action)];
    var gaResult := ClientGroupAddress.TryFrom(groupAddress);
    if gaResult.Err? {
      return Err(AddressUnwrapped(gaResult.error));
    }
    var ga := gaResult.value;
    ve := ClientProtocol.Append(ve, ClientGroupAddress.AsBytes(ga));
    var dptResult := Datapoint.TryFrom(datapoint);
    if dptResult.Err? {
      return Err(DataPointUnwrapped(dptResult.error));
    }
    var dpt := dptResult.value;
    ve := ClientProtocol.Append(ve, Datapoint.AsBytes(dpt));
    if action == ClientAction.WriteRequest {
      var quoted := ConvertValuesToUtf8Bytes(values);
      ve := ClientProtocol.Append(ve, quoted);
    }
    assert ve == Layout(action, ga, dpt, values);
    assert Frame(action, groupAddress, datapoint, values) == Ok(Layout(action, ga, dpt, values));
    return Ok(ve);
  }
}
