// The dispatcher of the current wire revision (SocketWorker.java): it checks
// the three-byte header, decodes the request body, asks the KNX client, and
// answers with one or two framed replies, the last of which carries the
// last-packet flag. Failures before any reply propagate to the caller.
module SocketWorker {
  import opened Bytes
  import opened Wrappers
  import opened Failures
  import opened Text
  import opened KnxCore
  import opened Channels
  import opened ServerStatus
  import FH = FrameHeader
  import RB = ResponseBody
  import RRB = ReadRequestBody
  import WRB = WriteRequestBody
  import SocketWriter

  /** One reply: the action its header names and its body. */
  datatype Reply = Reply(action: FH.FrameAction, body: RB.ResponseBody)

  function TimeoutMessage(ga: GroupAddress): string
  {
    "Could not get read data for group address: " + AddressLevel3(ga)
  }

  function UnreadableMessage(ga: GroupAddress, dpt: DataPointType, data: seq<uint8>): string
  {
    "Could not parse the read data for group address '" + AddressLevel3(ga)
      + "' and data point type '" + Id(dpt) + "': " + FormatHex(data)
  }

  function UnwritableMessage(ga: GroupAddress, dpt: DataPointType, args: seq<string>): string
  {
    "I could not understand value for group address '" + AddressLevel3(ga)
      + "' and data point type '" + Id(dpt) + "': " + ArrayText(args)
  }

  /** The final reply to an acknowledged read. */
  function ReadOutcome(req: RRB.ReadRequestBody, client: KnxClient): RB.ResponseBody
  {
    match client.statusData
    case None => RB.WithMessage(true, ErrorTimeout, Some(TimeoutMessage(req.groupAddress)))
    case Some(data) =>
      match client.readText
      case None =>
        RB.WithMessage(true, ErrorIncompatibleDataPointType,
                       Some(UnreadableMessage(req.groupAddress, req.dataPointType, data)))
      case Some(text) => RB.WithMessage(true, Success, Some(text))
  }

  /** actionRead: the replies to a read request body. */
  function ReadReplies(registry: Registry, client: KnxClient, body: seq<uint8>): Result<seq<Reply>, Failure>
  {
    match RRB.Of(registry, body)
    case Err(e) => Err(e)
    case Ok(req) =>
      if client.readAcknowledged then
        Ok([Reply(FH.ReadResponse, RB.Empty(false, Success)), Reply(FH.ReadResponse, ReadOutcome(req, client))])
      else
        Ok([Reply(FH.ReadResponse, RB.Empty(true, ErrorRequest))])
  }

  /**
   * actionWrite: the replies to a write request body. Only a KNX exception
   * from the conversion is caught and answered; any other one escapes.
   */
  function WriteReplies(registry: Registry, client: KnxClient, body: seq<uint8>): Result<seq<Reply>, Failure>
  {
    match WRB.Of(registry, body)
    case Err(e) => Err(e)
    case Ok(req) =>
      match client.conversion
      case RefusedByKnx =>
        Ok([Reply(FH.WriteResponse, RB.WithMessage(true, ErrorIncompatibleDataPointType,
              Some(UnwritableMessage(req.groupAddress, req.dataPointType, req.arguments))))])
      case OtherFailure => Err(ConversionFailed)
      case Converts =>
        Ok([Reply(FH.WriteResponse, RB.Empty(true, if client.writeAcknowledged then Success else ErrorRequest))])
  }

  /** execute: the replies to a packet, or the failure it throws before replying. */
  function Replies(registry: Registry, client: KnxClient, bytes: seq<uint8>): Result<seq<Reply>, Failure>
  {
    if |bytes| == 0 then Err(IllegalArgument("Bytes is required."))
    else if |bytes| < 3 then Err(IndexOutOfBounds)
    else
      match FH.Decode(bytes[0], bytes[1], bytes[2])
      case Err(e) => Err(e)
      case Ok(header) =>
        if header.version != 0x01 then
          Err(IllegalArgument("Protocol Version '" + Decimal(header.version) + "' is not supported: " + FormatHex(bytes)))
        else if header.action == FH.ReadRequest then ReadReplies(registry, client, bytes[3..])
        else if header.action == FH.WriteRequest then WriteReplies(registry, client, bytes[3..])
        else Ok([])
  }

  /** The frames a list of replies is written as. */
  function Frames(replies: seq<Reply>): (frames: seq<seq<uint8>>)
    ensures |frames| == |replies|
  {
    if |replies| == 0 then [] else [SocketWriter.Frame(replies[0].action, replies[0].body)] + Frames(replies[1..])
  }

  /** What reaches the client: the frames of the replies, if the channel takes them. */
  function Sent(r: Result<seq<Reply>, Failure>, connected: bool, failing: bool): seq<seq<uint8>>
  {
    if r.Ok? && SocketWriter.Delivers(connected, failing) then Frames(r.value) else []
  }

  function Thrown(r: Result<seq<Reply>, Failure>): Option<Failure>
  {
    if r.Err? then Some(r.error) else None
  }

  class SocketWorker {
    const knxClient: KnxClient
    const registry: Registry

    constructor(knxClient: KnxClient, registry: Registry)
      ensures this.knxClient == knxClient && this.registry == registry
    {
      this.knxClient := knxClient;
      this.registry := registry;
    }

    /** execute(packet): replies on the packet's channel, or throws. */
    method Execute(packet: ChannelPacket) returns (thrown: Option<Failure>)
      modifies packet.channel
      ensures thrown == Thrown(Replies(registry, knxClient, packet.Contents()))
      ensures packet.channel.written == old(packet.channel.written)
        + Sent(Replies(registry, knxClient, packet.Contents()), packet.channel.connected, packet.channel.failing)
      ensures packet.channel.connected == old(packet.channel.connected)
      ensures packet.channel.failing == old(packet.channel.failing)
      ensures packet.channel.open == old(packet.channel.open) && packet.channel.remote == old(packet.channel.remote)
    {
      var copy := packet.GetBytes();
      var bytes := copy[..];
      if |bytes| == 0 {
        return Some(IllegalArgument("Bytes is required."));
      }
      if |bytes| < 3 {
        return Some(IndexOutOfBounds);
      }
      var header := FH.Decode(bytes[0], bytes[1], bytes[2]);
      if header.Err? {
        return Some(header.error);
      }
      if header.value.version != 0x01 {
        return Some(IllegalArgument("Protocol Version '" + Decimal(header.value.version) + "' is not supported: " + FormatHex(bytes)));
      }
      if header.value.action == FH.ReadRequest {
        thrown := ActionRead(packet.channel, bytes[3..]);
      } else if header.value.action == FH.WriteRequest {
        thrown := ActionWrite(packet.channel, bytes[3..]);
      } else {
        thrown := None;
      }
    }

    method ActionRead(channel: SocketChannel, body: seq<uint8>) returns (thrown: Option<Failure>)
      modifies channel
      ensures thrown == Thrown(ReadReplies(registry, knxClient, body))
      ensures channel.written == old(channel.written) + Sent(ReadReplies(registry, knxClient, body), channel.connected, channel.failing)
      ensures channel.connected == old(channel.connected) && channel.failing == old(channel.failing)
      ensures channel.open == old(channel.open) && channel.remote == old(channel.remote)
    {
      var readRequest := RRB.Of(registry, body);
      if readRequest.Err? {
        return Some(readRequest.error);
      }
      var req := readRequest.value;
      var action := FH.ReadResponse;
      if knxClient.readAcknowledged {
        SocketWriter.WriteToChannel(channel, action, RB.Empty(false, Success));
        var last: RB.ResponseBody;
        match knxClient.statusData {
          case None =>
            var message := TimeoutMessage(req.groupAddress);
            last := RB.WithMessage(true, ErrorTimeout, Some(message));
          case Some(data) =>
            match knxClient.readText {
              case None =>
                var message := UnreadableMessage(req.groupAddress, req.dataPointType, data);
                last := RB.WithMessage(true, ErrorIncompatibleDataPointType, Some(message));
              case Some(text) =>
                last := RB.WithMessage(true, Success, Some(text));
            }
        }
        assert last == ReadOutcome(req, knxClient);
        ghost var first := channel.written;
        SocketWriter.WriteToChannel(channel, action, last);
        var replies := [Reply(action, RB.Empty(false, Success)), Reply(action, last)];
        assert ReadReplies(registry, knxClient, body) == Ok(replies);
        FramesOfTwo(replies[0], replies[1]);
        TwoWrites(old(channel.written), first, channel.written, Frames(replies),
                  SocketWriter.Delivers(channel.connected, channel.failing));
      } else {
        SocketWriter.WriteToChannel(channel, action, RB.Empty(true, ErrorRequest));
        FramesOfOne(Reply(action, RB.Empty(true, ErrorRequest)));
      }
      return None;
    }

    method ActionWrite(channel: SocketChannel, body: seq<uint8>) returns (thrown: Option<Failure>)
      modifies channel
      ensures thrown == Thrown(WriteReplies(registry, knxClient, body))
      ensures channel.written == old(channel.written) + Sent(WriteReplies(registry, knxClient, body), channel.connected, channel.failing)
      ensures channel.connected == old(channel.connected) && channel.failing == old(channel.failing)
      ensures channel.open == old(channel.open) && channel.remote == old(channel.remote)
    {
      var action := FH.WriteResponse;
      var writeRequest := WRB.Of(registry, body);
      if writeRequest.Err? {
        return Some(writeRequest.error);
      }
      var req := writeRequest.value;
      if knxClient.conversion == OtherFailure {
        return Some(ConversionFailed);
      }
      if knxClient.conversion == RefusedByKnx {
        var message := UnwritableMessage(req.groupAddress, req.dataPointType, req.arguments);
        var reply := RB.WithMessage(true, ErrorIncompatibleDataPointType, Some(message));
        SocketWriter.WriteToChannel(channel, action, reply);
        FramesOfOne(Reply(action, reply));
        return None;
      }
      var reply := RB.Empty(true, if knxClient.writeAcknowledged then Success else ErrorRequest);
      SocketWriter.WriteToChannel(channel, action, reply);
      FramesOfOne(Reply(action, reply));
      return None;
    }
  }

  lemma FramesOfOne(r: Reply)
    ensures Frames([r]) == [SocketWriter.Frame(r.action, r.body)]
  {
  }

  lemma FramesOfTwo(r1: Reply, r2: Reply)
    ensures Frames([r1, r2]) == [SocketWriter.Frame(r1.action, r1.body), SocketWriter.Frame(r2.action, r2.body)]
  {
    assert [r1, r2][1..] == [r2];
  }

  /** Two writes on the same channel state: both frames arrive, or neither. */
  lemma TwoWrites(w0: seq<seq<uint8>>, w1: seq<seq<uint8>>, w2: seq<seq<uint8>>, frames: seq<seq<uint8>>, d: bool)
    requires |frames| == 2
    requires w1 == w0 + (if d then [frames[0]] else [])
    requires w2 == w1 + (if d then [frames[1]] else [])
    ensures w2 == w0 + (if d then frames else [])
  {
    if d {
      assert frames == [frames[0]] + [frames[1]];
    }
  }

  // ------------------------------------------------------------ properties

  /** Exactly the last reply is marked as the last packet. */
  predicate LastOnlyAtEnd(replies: seq<Reply>)
  {
    && |replies| > 0
    && replies[|replies| - 1].body.lastPacket
    && forall i :: 0 <= i < |replies| - 1 ==> !replies[i].body.lastPacket
  }

  /** A request packet that is answered gets a reply list whose last reply alone is final. */
  lemma RepliesEndWithOneLast(registry: Registry, client: KnxClient, bytes: seq<uint8>)
    requires Replies(registry, client, bytes).Ok?
    ensures var replies := Replies(registry, client, bytes).value;
      |bytes| >= 3 && bytes[1] <= 1 ==> LastOnlyAtEnd(replies)
    ensures var replies := Replies(registry, client, bytes).value;
      |replies| == 0 <==> bytes[1] > 1
  {
    assert |bytes| >= 3 && FH.Decode(bytes[0], bytes[1], bytes[2]).Ok?;
    if bytes[1] == 0 {
      assert Replies(registry, client, bytes) == ReadReplies(registry, client, bytes[3..]);
      ReadEndsWithOneLast(registry, client, bytes[3..]);
    } else if bytes[1] == 1 {
      assert Replies(registry, client, bytes) == WriteReplies(registry, client, bytes[3..]);
      WriteEndsWithOneLast(registry, client, bytes[3..]);
    }
  }

  lemma ReadEndsWithOneLast(registry: Registry, client: KnxClient, body: seq<uint8>)
    requires ReadReplies(registry, client, body).Ok?
    ensures LastOnlyAtEnd(ReadReplies(registry, client, body).value)
  {
    if client.readAcknowledged {
      ReadAcknowledged(registry, client, body);
    } else {
      ReadNotAcknowledged(registry, client, body);
    }
  }

  lemma WriteEndsWithOneLast(registry: Registry, client: KnxClient, body: seq<uint8>)
    requires WriteReplies(registry, client, body).Ok?
    ensures LastOnlyAtEnd(WriteReplies(registry, client, body).value)
  {
    if client.conversion == Converts {
      WriteConvertible(registry, client, body);
    } else {
      WriteNotConvertible(registry, client, body);
    }
  }

  /** Replies to a read carry the read-response action, replies to a write the write-response action. */
  lemma RepliesCarryResponseAction(registry: Registry, client: KnxClient, bytes: seq<uint8>)
    requires Replies(registry, client, bytes).Ok?
    ensures var replies := Replies(registry, client, bytes).value;
      forall i :: 0 <= i < |replies| ==>
        replies[i].action == (if bytes[1] == FH.Code(FH.ReadRequest) then FH.ReadResponse else FH.WriteResponse)
  {
  }

  /** A read the bus does not acknowledge is answered with one final request error. */
  lemma ReadNotAcknowledged(registry: Registry, client: KnxClient, body: seq<uint8>)
    requires !client.readAcknowledged && |body| == RRB.StructureLength
    ensures ReadReplies(registry, client, body) == Ok([Reply(FH.ReadResponse, RB.Empty(true, ErrorRequest))])
  {
  }

  /**
   * An acknowledged read is answered twice: a non-final success, then the
   * outcome, which is a success exactly when the pool has data the datapoint
   * type can render, a timeout exactly when the pool has none, and an
   * incompatible-type error otherwise.
   */
  lemma ReadAcknowledged(registry: Registry, client: KnxClient, body: seq<uint8>)
    requires client.readAcknowledged && |body| == RRB.StructureLength
    ensures var r := ReadReplies(registry, client, body);
      && r.Ok? && |r.value| == 2
      && r.value[0].body == RB.Empty(false, Success)
      && r.value[1].body.lastPacket
      && (r.value[1].body.status == Success <==> client.statusData.Some? && client.readText.Some?)
      && (r.value[1].body.status == ErrorTimeout <==> client.statusData.None?)
      && (r.value[1].body.status == ErrorIncompatibleDataPointType <==> client.statusData.Some? && client.readText.None?)
  {
  }

  /** The success reply of a read carries the rendered text, unless that text is blank. */
  lemma ReadTextDelivered(registry: Registry, client: KnxClient, body: seq<uint8>)
    requires client.readAcknowledged && |body| == RRB.StructureLength
    requires client.statusData.Some? && client.readText.Some? && !IsBlank(client.readText.value)
    ensures ReadReplies(registry, client, body).Ok?
    ensures Utf8Of(ReadReplies(registry, client, body).value[1].body.data) == client.readText.value
  {
  }

  function Utf8Of(data: seq<uint8>): string
  {
    RB.Utf8.Decode(data)
  }

  /**
   * A write whose arguments the datapoint type refuses with a KNX exception
   * is answered with one final incompatible-type error, and the bus is never
   * asked: the answer does not depend on whether the bus would acknowledge it.
   */
  lemma WriteNotConvertible(registry: Registry, client: KnxClient, body: seq<uint8>)
    requires client.conversion == RefusedByKnx && WRB.Of(registry, body).Ok?
    ensures var r := WriteReplies(registry, client, body);
      && r.Ok? && |r.value| == 1
      && r.value[0].body.status == ErrorIncompatibleDataPointType && r.value[0].body.lastPacket
    ensures WriteReplies(registry, client, body)
         == WriteReplies(registry, client.(writeAcknowledged := !client.writeAcknowledged), body)
  {
  }

  /** A convertible write is answered with one final reply: success exactly when acknowledged. */
  lemma WriteConvertible(registry: Registry, client: KnxClient, body: seq<uint8>)
    requires client.conversion == Converts && WRB.Of(registry, body).Ok?
    ensures WriteReplies(registry, client, body)
         == Ok([Reply(FH.WriteResponse, RB.Empty(true, if client.writeAcknowledged then Success else ErrorRequest))])
  {
  }

  /**
   * A conversion failure other than a KNX exception escapes a well-formed
   * write packet: nothing is sent, whatever the bus would have answered.
   */
  lemma WriteConversionEscapes(registry: Registry, client: KnxClient, bytes: seq<uint8>)
    requires |bytes| >= 3 && bytes[0] == 1 && bytes[1] == FH.Code(FH.WriteRequest)
    requires WRB.Of(registry, bytes[3..]).Ok?
    ensures Replies(registry, client, bytes) == Err(ConversionFailed)
        <==> client.conversion == OtherFailure
    ensures forall connected: bool, failing: bool ::
      client.conversion == OtherFailure ==> Sent(Replies(registry, client, bytes), connected, failing) == []
  {
    assert FH.Decode(bytes[0], bytes[1], bytes[2]).Ok?;
    assert Replies(registry, client, bytes) == WriteReplies(registry, client, bytes[3..]);
  }

  /** Packets refused before any reply. */
  lemma RepliesRefused(registry: Registry, client: KnxClient, bytes: seq<uint8>)
    ensures |bytes| == 0 ==> Replies(registry, client, bytes) == Err(IllegalArgument("Bytes is required."))
    ensures |bytes| >= 3 && bytes[1] >= 5 ==> Replies(registry, client, bytes) == Err(EnumNotFound(bytes[1]))
    ensures |bytes| >= 3 && bytes[1] < 5 && bytes[0] != 1 ==>
      Replies(registry, client, bytes).Err? && Replies(registry, client, bytes).error.IllegalArgument?
    ensures |bytes| >= 3 && bytes[0] == 1 && bytes[1] == 0 && |bytes| != 9 ==>
      Replies(registry, client, bytes) == Err(IllegalArgument("Wrong structure length: " + FormatHex(bytes[3..])))
  {
  }

  /** The message for an unsupported version names it in decimal and the packet in hex. */
  lemma UnsupportedVersionMessage(registry: Registry, client: KnxClient)
    ensures Replies(registry, client, [0xFF, 0x00, 0x00])
         == Err(IllegalArgument("Protocol Version '" + "255" + "' is not supported: " + "0xFF 00 00"))
  {
    var bytes: seq<uint8> := [0xFF, 0x00, 0x00];
    assert FH.Decode(bytes[0], bytes[1], bytes[2]).Ok?;
    assert FH.Decode(bytes[0], bytes[1], bytes[2]).value.version == 0xFF;
    assert Decimal(25) == "25";
    assert Decimal(255) == "255";
    assert SpacedHex(bytes[2..]) == " 00";
    assert SpacedHex(bytes[1..]) == " 00 00";
    assert FormatHex(bytes) == "0xFF 00 00";
  }
}
