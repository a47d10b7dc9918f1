// The dispatcher of the older wire revision (ServerWorker.java): a two-byte
// header, the request body after it, and unframed replies: the text
// `SUCCESS` or `FAILED` for the bus outcome and, after a read, the raw bytes
// of the status pool's value. Failures before any reply propagate.
module ServerWorker {
  import opened Bytes
  import opened Wrappers
  import opened Failures
  import opened Text
  import opened KnxCore
  import opened Channels
  import Utf8
  import Header
  import ServerAction
  import RRB = ReadRequestBody
  import WRB = WriteRequestBody

  /** The text sent for a bus outcome. */
  function OutcomeText(acknowledged: bool): string
  {
    if acknowledged then "SUCCESS" else "FAILED"
  }

  /** The UTF-8 bytes of the outcome text. */
  function OutcomeBytes(acknowledged: bool): (r: seq<uint8>)
    ensures Utf8.Decode(r) == OutcomeText(acknowledged)
  {
    Utf8.DecodeEncode(OutcomeText(acknowledged));
    Utf8.Encode(OutcomeText(acknowledged))
  }

  const RejectedVersionPrefix := "Bytes is not supported for this protocol implementation 'class li.pitschmann.knx.link.ServerWorker': "

  /**
   * actionRead: the outcome text, then the status pool's value bytes; with no
   * value in the pool the second step fails inside the callback chain and
   * nothing more is sent.
   */
  function ReadReplies(registry: Registry, client: KnxClient, body: seq<uint8>): Result<seq<seq<uint8>>, Failure>
  {
    match RRB.Of(registry, body)
    case Err(e) => Err(e)
    case Ok(_) =>
      match client.statusData
      case None => Ok([OutcomeBytes(client.readAcknowledged)])
      case Some(data) => Ok([OutcomeBytes(client.readAcknowledged), data])
  }

  /** actionWrite: the conversion of the arguments is not guarded, so its failure propagates. */
  function WriteReplies(registry: Registry, client: KnxClient, body: seq<uint8>): Result<seq<seq<uint8>>, Failure>
  {
    match WRB.Of(registry, body)
    case Err(e) => Err(e)
    case Ok(_) =>
      if client.conversion != Converts then Err(ConversionFailed)
      else Ok([OutcomeBytes(client.writeAcknowledged)])
  }

  /** execute: the replies to a packet, or the failure it throws before replying. */
  function Replies(registry: Registry, client: KnxClient, bytes: seq<uint8>): Result<seq<seq<uint8>>, Failure>
  {
    if |bytes| == 0 then Err(IllegalArgument("Bytes is required."))
    else if |bytes| < Header.StructureLength then Err(IndexOutOfBounds)
    else
      match Header.Of(bytes[..Header.StructureLength])
      case Err(e) => Err(e)
      case Ok(header) =>
        if header.version != 0x01 then Err(IllegalArgument(RejectedVersionPrefix + FormatHex(bytes)))
        else if header.action == ServerAction.ReadRequest then ReadReplies(registry, client, bytes[2..])
        else WriteReplies(registry, client, bytes[2..])
  }

  /** Whether bytes written now reach the client. */
  predicate Delivers(open: bool, connected: bool, failing: bool)
  {
    open && connected && !failing
  }

  /** What reaches the client: the replies, if the channel takes them. */
  function Sent(r: Result<seq<seq<uint8>>, Failure>, open: bool, connected: bool, failing: bool): seq<seq<uint8>>
  {
    if r.Ok? && Delivers(open, connected, failing) then r.value else []
  }

  function Thrown(r: Result<seq<seq<uint8>>, Failure>): Option<Failure>
  {
    if r.Err? then Some(r.error) else None
  }

  /** writeToChannel: writes only on an open, connected channel; an I/O failure is swallowed. */
  method WriteToChannel(channel: SocketChannel, bytes: seq<uint8>)
    modifies channel
    ensures channel.written == old(channel.written) + (if Delivers(channel.open, channel.connected, channel.failing) then [bytes] else [])
    ensures channel.open == old(channel.open) && channel.connected == old(channel.connected)
    ensures channel.failing == old(channel.failing) && channel.remote == old(channel.remote)
  {
    var bb := ArrayOf(bytes);
    if channel.open && channel.connected {
      var ioFailure := channel.Write(bb);
    }
  }

  class ServerWorker {
    const knxClient: KnxClient
    const registry: Registry

    constructor(knxClient: KnxClient, registry: Registry)
      ensures this.knxClient == knxClient && this.registry == registry
    {
      this.knxClient := knxClient;
      this.registry := registry;
    }

    /** execute(packet): replies on the packet's channel, or throws. */
    method Execute(packet: ChannelPacket) returns (thrown: Option<Failure>)
      modifies packet.channel
      ensures thrown == Thrown(Replies(registry, knxClient, packet.Contents()))
      ensures packet.channel.written == old(packet.channel.written)
        + Sent(Replies(registry, knxClient, packet.Contents()), packet.channel.open, packet.channel.connected, packet.channel.failing)
      ensures packet.channel.open == old(packet.channel.open)
      ensures packet.channel.connected == old(packet.channel.connected)
      ensures packet.channel.failing == old(packet.channel.failing)
      ensures packet.channel.remote == old(packet.channel.remote)
    {
      var copy := packet.GetBytes();
      var bytes := copy[..];
      if |bytes| == 0 {
        return Some(IllegalArgument("Bytes is required."));
      }
      if |bytes| < Header.StructureLength {
        return Some(IndexOutOfBounds);
      }
      var header := Header.Of([bytes[0], bytes[1]]);
      assert [bytes[0], bytes[1]] == bytes[..Header.StructureLength];
      if header.Err? {
        return Some(header.error);
      }
      if header.value.version != 0x01 {
        return Some(IllegalArgument(RejectedVersionPrefix + FormatHex(bytes)));
      }
      match header.value.action {
        case ReadRequest =>
          thrown := ActionRead(packet.channel, bytes[2..]);
        case WriteRequest =>
          thrown := ActionWrite(packet.channel, bytes[2..]);
      }
    }

    method ActionRead(channel: SocketChannel, body: seq<uint8>) returns (thrown: Option<Failure>)
      modifies channel
      ensures thrown == Thrown(ReadReplies(registry, knxClient, body))
      ensures channel.written == old(channel.written)
        + Sent(ReadReplies(registry, knxClient, body), channel.open, channel.connected, channel.failing)
      ensures channel.open == old(channel.open) && channel.connected == old(channel.connected)
      ensures channel.failing == old(channel.failing) && channel.remote == old(channel.remote)
    {
      var readRequest := RRB.Of(registry, body);
      if readRequest.Err? {
        return Some(readRequest.error);
      }
      WriteToChannel(channel, OutcomeBytes(knxClient.readAcknowledged));
      match knxClient.statusData {
        case None =>
        case Some(data) =>
          WriteToChannel(channel, data);
      }
      return None;
    }

    method ActionWrite(channel: SocketChannel, body: seq<uint8>) returns (thrown: Option<Failure>)
      modifies channel
      ensures thrown == Thrown(WriteReplies(registry, knxClient, body))
      ensures channel.written == old(channel.written)
        + Sent(WriteReplies(registry, knxClient, body), channel.open, channel.connected, channel.failing)
      ensures channel.open == old(channel.open) && channel.connected == old(channel.connected)
      ensures channel.failing == old(channel.failing) && channel.remote == old(channel.remote)
    {
      var writeRequest := WRB.Of(registry, body);
      if writeRequest.Err? {
        return Some(writeRequest.error);
      }
      if knxClient.conversion != Converts {
        return Some(ConversionFailed);
      }
      WriteToChannel(channel, OutcomeBytes(knxClient.writeAcknowledged));
      return None;
    }
  }

  // ------------------------------------------------------------ properties

  /** Packets refused before any reply. */
  lemma RepliesRefused(registry: Registry, client: KnxClient, bytes: seq<uint8>)
    ensures |bytes| == 0 ==> Replies(registry, client, bytes) == Err(IllegalArgument("Bytes is required."))
    ensures |bytes| == 1 ==> Replies(registry, client, bytes) == Err(IndexOutOfBounds)
    ensures |bytes| >= 2 && bytes[1] >= 2 ==> Replies(registry, client, bytes) == Err(IndexOutOfBounds)
    ensures |bytes| >= 2 && bytes[1] < 2 && bytes[0] != 1 ==>
      Replies(registry, client, bytes) == Err(IllegalArgument(RejectedVersionPrefix + FormatHex(bytes)))
    ensures |bytes| >= 2 && bytes[0] == 1 && bytes[1] == 0 && |bytes| != 8 ==>
      Replies(registry, client, bytes) == Err(IllegalArgument("Wrong structure length: " + FormatHex(bytes[2..])))
  {
  }

  /**
   * A well-formed read is answered first with the bus outcome's text and then,
   * whatever that outcome was, with the pool's value bytes when the pool has a
   * value.
   */
  lemma ReadAnswered(registry: Registry, client: KnxClient, bytes: seq<uint8>)
    requires |bytes| == 8 && bytes[0] == 1 && bytes[1] == ServerAction.Code(ServerAction.ReadRequest)
    ensures var r := Replies(registry, client, bytes);
      && r.Ok?
      && |r.value| == (if client.statusData.Some? then 2 else 1)
      && Utf8.Decode(r.value[0]) == (if client.readAcknowledged then "SUCCESS" else "FAILED")
      && (client.statusData.Some? ==> r.value[1] == client.statusData.value)
    ensures Replies(registry, client, bytes).Ok? && client.statusData.Some? ==>
      Replies(registry, client, bytes).value[1]
        == Replies(registry, client.(readAcknowledged := !client.readAcknowledged), bytes).value[1]
  {
    assert bytes[..Header.StructureLength] == [bytes[0], bytes[1]];
  }

  /**
   * A well-formed write either fails in the unguarded conversion, sending
   * nothing, or is answered with the bus outcome's text alone.
   */
  lemma WriteAnswered(registry: Registry, client: KnxClient, bytes: seq<uint8>)
    requires |bytes| >= 2 && bytes[0] == 1 && bytes[1] == ServerAction.Code(ServerAction.WriteRequest)
    requires WRB.Of(registry, bytes[2..]).Ok?
    ensures client.conversion != Converts ==> Replies(registry, client, bytes) == Err(ConversionFailed)
    ensures client.conversion == Converts ==>
      && Replies(registry, client, bytes).Ok?
      && |Replies(registry, client, bytes).value| == 1
      && Utf8.Decode(Replies(registry, client, bytes).value[0]) == (if client.writeAcknowledged then "SUCCESS" else "FAILED")
  {
    assert bytes[..Header.StructureLength] == [bytes[0], bytes[1]];
  }
}
