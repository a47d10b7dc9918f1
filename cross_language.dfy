// How the Rust client's bytes meet the Java gateway's decoders: what the
// gateway makes of a client frame, and what the client makes of a gateway
// reply. Where the two sides disagree the lemmas state what happens.
module CrossLanguage {
  import opened Bytes
  import opened Wrappers
  import opened Text
  import opened KnxCore
  import Utf8
  import ArgumentParser
  import ProtocolHelper
  import FH = FrameHeader
  import RB = ResponseBody
  import RRB = ReadRequestBody
  import WRB = WriteRequestBody
  import ServerStatus
  import PacketReader
  import SocketWorker
  import ThreeLevel
  import ClientGroupAddress
  import Datapoint
  import ClientAction
  import ClientStatus
  import ClientProtocol
  import ClientReadRequest
  import ClientWriteRequest
  import ClientProtocolV1
  import ClientResponse

  // ------------------------------------------------------------ code tables

  /** The client's name for each gateway status. */
  function ClientName(s: ServerStatus.Status): (c: ClientStatus.Status)
    ensures ClientStatus.ToByte(c) == ServerStatus.Code(s)
  {
    match s
    case Success => ClientStatus.Success
    case Error => ClientStatus.Error
    case ErrorRequest => ClientStatus.ErrorRequest
    case ErrorTimeout => ClientStatus.ErrorTimeout
    case ErrorGroupAddress => ClientStatus.ErrorGroupAddress
    case ErrorIncompatibleDataPointType => ClientStatus.ErrorDataPointType
    case ErrorClientNotAuthorized => ClientStatus.ErrorClientNotAuthorized
  }

  /** Both sides give every status the same code, so the client reads each gateway code as that status. */
  lemma StatusCodesAgree(s: ServerStatus.Status)
    ensures ClientStatus.TryFrom(ServerStatus.GetByte(s)) == Ok(ClientName(s))
  {
    ClientStatus.RoundTrip(ClientName(s));
  }

  /** The gateway's action for each client action. */
  function ServerName(a: ClientAction.Action): (f: FH.FrameAction)
    ensures FH.Code(f) == ClientAction.ToByte(a)
  {
    match a
    case ReadRequest => FH.ReadRequest
    case WriteRequest => FH.WriteRequest
  }

  /** The gateway's header reads the client's action byte as the same request. */
  lemma ActionCodesAgree(a: ClientAction.Action)
    ensures FH.ActionOf(ClientAction.ToByte(a)) == Ok(ServerName(a))
  {
    FH.ActionOfCode(ServerName(a));
  }

  // ------------------------------------------------------- group addresses

  /**
   * A three-level address the client packs is the word the gateway decodes,
   * and the gateway's three-level text of that word is the client's text.
   */
  lemma {:induction false} ThreeLevelServerText(g: ThreeLevel.ThreeLevel)
    requires ThreeLevel.Valid(g)
    ensures AddressLevel3(ProtocolHelper.ParseGroupAddress(ThreeLevel.AsBytes(g))) == ThreeLevel.Display(g)
  {
    ThreeLevel.AsBytesFields(g);
    var raw := (g.main * 8 + g.middle) * 0x100 + g.sub;
    assert ProtocolHelper.ParseGroupAddress(ThreeLevel.AsBytes(g)).raw == raw;
    DivModByte(g.main * 8 + g.middle, g.sub);
    DivModEight(g.main, g.middle);
    assert raw == g.main * 0x800 + (g.middle * 0x100 + g.sub);
    DivModEleven(g.main, g.middle * 0x100 + g.sub);
  }

  // ------------------------------------------------------------ datapoints

  /** The client's text of a datapoint is the registry key the gateway tries first. */
  lemma DatapointKeys(d: Datapoint.DataPoint)
    ensures d.dpst != 0 ==> Datapoint.Display(d) == ProtocolHelper.SubTypeKey(d.dpt, d.dpst)
    ensures d.dpst == 0 ==> Datapoint.Display(d) == ProtocolHelper.MainTypeKey(d.dpt)
  {
  }

  /** A subtype the client names and the registry knows is the type the gateway resolves. */
  lemma DatapointResolves(registry: Registry, d: Datapoint.DataPoint)
    requires d.dpst != 0 && Datapoint.Display(d) in registry
    ensures ProtocolHelper.ParseDataPointType(registry, Datapoint.AsBytes(d)) == registry[Datapoint.Display(d)]
  {
    DatapointKeys(d);
  }

  // --------------------------------------------------------------- requests

  /**
   * The gateway answers a client read frame as a read of the client's
   * address and datapoint.
   */
  lemma {:induction false} ReadFrameDecoded(registry: Registry, client: KnxClient,
                                            ga: ClientGroupAddress.GroupAddress, d: Datapoint.DataPoint)
    requires |ga.address| == 2
    ensures var f := ClientReadRequest.Layout(ga, d);
      && SocketWorker.Replies(registry, client, f) == SocketWorker.ReadReplies(registry, client, f[3..])
      && RRB.Of(registry, f[3..])
         == Ok(RRB.ReadRequestBody(GroupAddress(Word(ga.address[0], ga.address[1])),
                                   ProtocolHelper.ParseDataPointType(registry, Datapoint.AsBytes(d))))
  {
    var f := ClientReadRequest.Layout(ga, d);
    assert f[3..][..2] == ga.address && f[3..][2..6] == Datapoint.AsBytes(d);
    assert FH.Decode(f[0], f[1], f[2]) == Ok(FH.FrameHeader(1, FH.ReadRequest, 6));
  }

  /** The text the client sends for its values. */
  lemma {:induction false} ValuesReadBack(values: seq<string>)
    requires |values| <= 0x100
    requires forall k :: 0 <= k < |values| ==> ArgumentParser.AllQuotable(values[k]) && |values[k]| > 0
    ensures ArgumentParser.Arguments(ClientProtocol.QuotedFrom(values, 0)) == Ok(values)
  {
    ClientProtocol.ValuesText(values);
    if |values| > 0 {
      var t := ArgumentParser.QuotedJoin(values);
      assert |t| > 0 by {
        assert |values[0]| > 0;
        assert |ClientProtocol.QuotedFrom(values, 0)| > 0;
      }
      Utf8.DecodeEncode(t);
      ArgumentParser.ScanQuotedJoin(values, []);
      assert ArgumentParser.Start.(args := []) == ArgumentParser.Start;
      assert [] + values == values;
    }
  }

  /**
   * The gateway reads a client write frame as a write of the client's
   * address and datapoint with exactly the client's values, as long as no
   * value is empty or holds a quote or backslash and there are at most 256.
   */
  lemma {:induction false} WriteFrameDecoded(registry: Registry, client: KnxClient,
                                             ga: ClientGroupAddress.GroupAddress, d: Datapoint.DataPoint,
                                             values: seq<string>)
    requires |ga.address| == 2 && |values| <= 0x100
    requires forall k :: 0 <= k < |values| ==> ArgumentParser.AllQuotable(values[k]) && |values[k]| > 0
    ensures var f := ClientWriteRequest.Layout(ga, d, values);
      && SocketWorker.Replies(registry, client, f) == SocketWorker.WriteReplies(registry, client, f[3..])
      && WRB.Of(registry, f[3..])
         == Ok(WRB.WriteRequestBody(GroupAddress(Word(ga.address[0], ga.address[1])),
                                    ProtocolHelper.ParseDataPointType(registry, Datapoint.AsBytes(d)), values))
  {
    var f := ClientWriteRequest.Layout(ga, d, values);
    var body := f[3..];
    assert body[..2] == ga.address && body[2..6] == Datapoint.AsBytes(d);
    assert body[6..] == ClientProtocol.QuotedFrom(values, 0);
    ValuesReadBack(values);
    assert FH.Decode(f[0], f[1], f[2]).Ok? && FH.Decode(f[0], f[1], f[2]).value.version == 1;
  }

  /** The gateway tokenizes the very text a non-empty encoded text came from. */
  lemma ArgumentsOfText(t: string)
    requires |t| > 0
    ensures ArgumentParser.Arguments(Utf8.Encode(t)) == ArgumentParser.Scan(t, ArgumentParser.Start)
  {
    Utf8.DecodeEncode(t);
  }

  /** The quoted text of an empty value and more values after it. */
  lemma EmptyFirstText(rest: seq<string>)
    requires 0 < |rest|
    ensures ArgumentParser.QuotedJoin([""] + rest) == "\"\"" + " " + ArgumentParser.QuotedJoin(rest)
  {
    assert ([""] + rest)[1..] == rest;
    assert "\"" + "" + "\"" == "\"\"";
  }

  /** An empty value vanishes on the way: the gateway sees only the values after it. */
  lemma EmptyValueVanishes(rest: seq<string>)
    requires 0 < |rest| < 0x100
    ensures ArgumentParser.Arguments(ClientProtocol.QuotedFrom([""] + rest, 0))
         == ArgumentParser.Scan(ArgumentParser.QuotedJoin(rest), ArgumentParser.Start)
  {
    var t := ArgumentParser.QuotedJoin([""] + rest);
    ClientProtocol.ValuesText([""] + rest);
    EmptyFirstText(rest);
    ArgumentsOfText(t);
    ArgumentParser.EmptyQuotedVanishes(ArgumentParser.QuotedJoin(rest), []);
    assert ArgumentParser.Start.(args := []) == ArgumentParser.Start;
  }

  /** The older reader takes the terminated values of an older client write as those values. */
  lemma {:induction false} OlderWriteArguments(ga: ClientGroupAddress.GroupAddress, d: Datapoint.DataPoint,
                                              values: seq<string>)
    requires |ga.address| == 2 && |values| <= 0x100
    requires forall k :: 0 <= k < |values| ==> ArgumentParser.AllQuotable(values[k]) && |values[k]| > 0
    ensures PacketReader.GetArgs(ClientProtocolV1.Layout(ClientAction.WriteRequest, ga, d, values)) == Ok(values)
  {
    var f := ClientProtocolV1.Layout(ClientAction.WriteRequest, ga, d, values);
    var q := ClientProtocol.QuotedFrom(values, 0);
    assert f == f[..8] + q + [0x00];
    PacketReader.GetArgsShape(f[..8], q);
    ValuesReadBack(values);
  }

  /** An older client read frame has no terminator, and the older reader refuses its arguments. */
  lemma OlderReadArgumentsRefused(ga: ClientGroupAddress.GroupAddress, d: Datapoint.DataPoint, values: seq<string>)
    requires |ga.address| == 2
    ensures PacketReader.GetArgs(ClientProtocolV1.Layout(ClientAction.ReadRequest, ga, d, values)).Err?
  {
    PacketReader.GetArgsRefuses(ClientProtocolV1.Layout(ClientAction.ReadRequest, ga, d, values));
  }

  // --------------------------------------------------------------- replies

  /**
   * The client reads every gateway reply as a success: the gateway puts the
   * status into the low bits of the first byte and leaves the second byte 0,
   * where the client looks for it. Flag and data come through.
   */
  lemma RepliesReadAsSuccess(r: RB.ResponseBody)
    ensures ClientResponse.TryFrom(RB.GetBytes(r)) == Ok(ClientResponse.ResponseBody(r.lastPacket, ClientStatus.Success, r.data))
  {
    var bytes := RB.GetBytes(r);
    assert bytes[1] == 0 && bytes[2..] == r.data;
    assert bytes[0] >= 0x80 <==> r.lastPacket;
  }

  /** So a gateway error reaches the client as a success with the error text as its message. */
  lemma ErrorTextReadAsSuccess(lastPacket: bool, status: ServerStatus.Status, message: string)
    requires !IsBlank(message)
    ensures var b := ClientResponse.TryFrom(RB.GetBytes(RB.WithMessage(lastPacket, status, Some(message))));
      b.Ok? && b.value.status == ClientStatus.Success && ClientResponse.Message(b.value) == Ok(message)
  {
    RepliesReadAsSuccess(RB.WithMessage(lastPacket, status, Some(message)));
    ClientResponse.MessageOfText(lastPacket, ClientStatus.Success, message);
  }
}
