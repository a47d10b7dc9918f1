// Framing of gateway replies (SocketWriter.java): the three-byte header with
// version 1, the action and the body length, followed by the response body.
// A frame is written only while the channel is connected; an I/O failure is
// swallowed.
module SocketWriter {
  import opened Bytes
  import opened Wrappers
  import opened Channels
  import opened FrameHeader
  import RB = ResponseBody

  /** The bytes of one reply frame. */
  function Frame(action: FrameAction, body: RB.ResponseBody): (frame: seq<uint8>)
  {
    ToBytes(Make(1, action, |RB.GetBytes(body)|)) + RB.GetBytes(body)
  }

  /** A frame splits back into a version-1 header naming its action and body length, and the body. */
  lemma FrameSplits(action: FrameAction, body: RB.ResponseBody)
    ensures var f := Frame(action, body);
      && |f| == 3 + |RB.GetBytes(body)|
      && Decode(f[0], f[1], f[2]) == Ok(FrameHeader(1, action, |RB.GetBytes(body)| % 0x100))
      && RB.Decode(f[3..]) == Ok(body)
  {
    var f := Frame(action, body);
    DecodeToBytes(Make(1, action, |RB.GetBytes(body)|));
    assert f[3..] == RB.GetBytes(body);
    RB.DecodeGetBytes(body);
  }

  /** Whether a frame written now reaches the client. */
  predicate Delivers(connected: bool, failing: bool)
  {
    connected && !failing
  }

  /** writeToChannel(channel, action, body). */
  method WriteToChannel(channel: SocketChannel, action: FrameAction, body: RB.ResponseBody)
    modifies channel
    ensures channel.written == old(channel.written) + (if Delivers(channel.connected, channel.failing) then [Frame(action, body)] else [])
    ensures channel.open == old(channel.open) && channel.connected == old(channel.connected)
    ensures channel.failing == old(channel.failing) && channel.remote == old(channel.remote)
  {
    var responseBytes := RB.ToArray(body);
    var headerBytes := ToBytes(Make(1, action, responseBytes.Length));
    var bytes := new uint8[|headerBytes| + responseBytes.Length];
    forall i | 0 <= i < |headerBytes| {
      bytes[i] := headerBytes[i];
    }
    forall i | 0 <= i < responseBytes.Length {
      bytes[|headerBytes| + i] := responseBytes[i];
    }
    assert bytes[..] == Frame(action, body);
    if channel.connected {
      var ioFailure := channel.Write(bytes);
    }
  }

  /** writeToChannel(channel, body): a general message. */
  method WriteGeneralMessage(channel: SocketChannel, body: RB.ResponseBody)
    modifies channel
    ensures channel.written == old(channel.written) + (if Delivers(channel.connected, channel.failing) then [Frame(GeneralMessage, body)] else [])
    ensures channel.open == old(channel.open) && channel.connected == old(channel.connected)
    ensures channel.failing == old(channel.failing) && channel.remote == old(channel.remote)
  {
    WriteToChannel(channel, GeneralMessage, body);
  }
}
