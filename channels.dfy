// The socket channel a client is connected on, and the packet the listener
// hands to a worker (ChannelPacket.java). The channel records the frames
// that reached the client; the network itself is not modelled.
module Channels {
  import opened Bytes

  /** What getRemoteAddress yields: an IP socket address, another kind of address, or an I/O failure. */
  datatype RemoteAddress = InetAddress(hostAddress: string) | OtherAddress | Unreadable

  class SocketChannel {
    var open: bool
    var connected: bool
    /** Every write on this channel raises an I/O exception. */
    var failing: bool
    var remote: RemoteAddress
    /** The frames written to the client so far, oldest first. */
    var written: seq<seq<uint8>>

    constructor(open: bool, connected: bool, failing: bool, remote: RemoteAddress)
      ensures this.open == open && this.connected == connected && this.failing == failing
      ensures this.remote == remote && written == []
    {
      this.open := open;
      this.connected := connected;
      this.failing := failing;
      this.remote := remote;
      written := [];
    }

    /** channel.write: the frame reaches the client unless the write fails. */
    method Write(frame: array<uint8>) returns (ioFailure: bool)
      modifies this
      ensures ioFailure == failing
      ensures written == old(written) + (if failing then [] else [frame[..]])
      ensures open == old(open) && connected == old(connected) && failing == old(failing) && remote == old(remote)
    {
      ioFailure := failing;
      if !failing {
        written := written + [frame[..]];
      }
    }
  }

  /** A fresh copy of an array (Java `clone()`). */
  method CloneArray(src: array<uint8>) returns (dst: array<uint8>)
    ensures fresh(dst) && dst[..] == src[..]
  {
    dst := new uint8[src.Length];
    forall i | 0 <= i < src.Length {
      dst[i] := src[i];
    }
  }

  /** A new array holding a sequence of bytes (`ByteBuffer.wrap` of fresh bytes). */
  method ArrayOf(bytes: seq<uint8>) returns (a: array<uint8>)
    ensures fresh(a) && a[..] == bytes
  {
    a := new uint8[|bytes|];
    forall i | 0 <= i < |bytes| {
      a[i] := bytes[i];
    }
  }

  /** The packet a client sent, with the channel it came from. */
  class ChannelPacket {
    const channel: SocketChannel
    /** A private copy of the received bytes. */
    const bytes: array<uint8>

    /** ChannelPacket(channel, bytes): keeps its own copy of the bytes. */
    constructor(channel: SocketChannel, data: array<uint8>)
      ensures this.channel == channel && fresh(bytes) && bytes[..] == data[..]
    {
      this.channel := channel;
      var copy := CloneArray(data);
      bytes := copy;
    }

    function Contents(): seq<uint8>
      reads this, bytes
    {
      bytes[..]
    }

    /** getBytes: a defensive copy, so callers cannot change the packet. */
    method GetBytes() returns (copy: array<uint8>)
      ensures fresh(copy) && copy[..] == Contents()
    {
      copy := CloneArray(bytes);
    }
  }
}
