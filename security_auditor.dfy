// The guard on newly accepted connections (SecurityAuditor.java): the
// loopback address and the configured addresses are accepted; any other
// IP address is told that it is not allowed, once, and refused; a remote
// address that is no IP socket address, or cannot be read, is refused
// silently.
module SecurityAuditor {
  import opened Bytes
  import opened Wrappers
  import opened Text
  import opened Channels
  import opened ServerStatus
  import FH = FrameHeader
  import RB = ResponseBody
  import SocketWriter
  import Utf8

  const Loopback := "127.0.0.1"

  /** The decision on a remote address. */
  predicate Accepts(allowed: set<string>, remote: RemoteAddress)
  {
    match remote
    case InetAddress(ip) => ip == Loopback || ip in allowed
    case OtherAddress => false
    case Unreadable => false
  }

  /** The text around the address in the message a refused IP address is sent. */
  const RejectionLead := "Your IP Address '"
  const RejectionTail := "' is not whitelisted. To add your IP Address to "
    + "whitelist, add it to the property 'server.allowed.addresses' of your 'server.cfg' file."

  /** The message a refused IP address is sent: the address, quoted, inside the fixed text. */
  function RejectionMessage(ip: string): (m: string)
    ensures |m| == |RejectionLead| + |ip| + |RejectionTail|
    ensures m[..|RejectionLead|] == RejectionLead
    ensures m[|RejectionLead|..|RejectionLead| + |ip|] == ip
    ensures m[|RejectionLead| + |ip|..] == RejectionTail
  {
    RejectionLead + ip + RejectionTail
  }

  /** The body of the message a refused IP address is sent. */
  function RejectionBody(ip: string): RB.ResponseBody
  {
    RB.WithMessage(true, ErrorClientNotAuthorized, Some(RejectionMessage(ip)))
  }

  /** The frames sent to a remote address: one rejection for a refused IP address, nothing otherwise. */
  function Notices(allowed: set<string>, remote: RemoteAddress): seq<seq<uint8>>
  {
    if remote.InetAddress? && !Accepts(allowed, remote) then
      [SocketWriter.Frame(FH.GeneralMessage, RejectionBody(remote.hostAddress))]
    else []
  }

  class SecurityAuditor {
    /** A private snapshot of the allowed IP addresses. */
    const allowedAddresses: set<string>

    constructor(allowedAddresses: set<string>)
      ensures this.allowedAddresses == allowedAddresses
    {
      this.allowedAddresses := allowedAddresses;
    }

    /** getAllowedAddresses: the snapshot taken at construction. */
    function GetAllowedAddresses(): (r: set<string>)
      ensures r == allowedAddresses
    {
      allowedAddresses
    }

    /** isRemoteAddressValid: the decision, and the rejection notice sent on the way. */
    method IsRemoteAddressValid(channel: SocketChannel) returns (valid: bool)
      modifies channel
      ensures valid == Accepts(allowedAddresses, channel.remote)
      ensures channel.written == old(channel.written)
        + (if SocketWriter.Delivers(channel.connected, channel.failing) then Notices(allowedAddresses, channel.remote) else [])
      ensures channel.open == old(channel.open) && channel.connected == old(channel.connected)
      ensures channel.failing == old(channel.failing) && channel.remote == old(channel.remote)
    {
      match channel.remote {
        case Unreadable =>
          return false;
        case OtherAddress =>
          return false;
        case InetAddress(ipAddress) =>
          if ipAddress == Loopback {
            return true;
          } else if ipAddress in allowedAddresses {
            return true;
          } else {
            SocketWriter.WriteGeneralMessage(channel, RejectionBody(ipAddress));
            return false;
          }
      }
    }
  }

  // ------------------------------------------------------------ properties

  /** The loopback address is accepted whatever the allow-list, and told nothing. */
  lemma LoopbackAccepted(allowed: set<string>)
    ensures Accepts(allowed, InetAddress(Loopback))
    ensures Notices(allowed, InetAddress(Loopback)) == []
  {
  }

  /**
   * An IP address is accepted exactly when it is the loopback address or
   * listed; a refused one is sent one final not-authorized general message,
   * whose text names it.
   */
  lemma InetDecision(allowed: set<string>, ip: string)
    ensures Accepts(allowed, InetAddress(ip)) <==> ip == Loopback || ip in allowed
    ensures !Accepts(allowed, InetAddress(ip)) ==>
      var notices := Notices(allowed, InetAddress(ip));
      && |notices| == 1
      && FH.Decode(notices[0][0], notices[0][1], notices[0][2]).value.action == FH.GeneralMessage
      && RB.Decode(notices[0][3..]) == Ok(RejectionBody(ip))
      && RejectionBody(ip).lastPacket && RejectionBody(ip).status == ErrorClientNotAuthorized
  {
    if !Accepts(allowed, InetAddress(ip)) {
      SocketWriter.FrameSplits(FH.GeneralMessage, RejectionBody(ip));
    }
  }

  /** A remote address that is not an IP address, or cannot be read, is refused without a message. */
  lemma FailsClosed(allowed: set<string>, remote: RemoteAddress)
    requires !remote.InetAddress?
    ensures !Accepts(allowed, remote) && Notices(allowed, remote) == []
  {
  }

  /** Growing the allow-list never refuses an address that was accepted. */
  lemma AcceptsMonotone(allowed: set<string>, more: set<string>, remote: RemoteAddress)
    requires allowed <= more && Accepts(allowed, remote)
    ensures Accepts(more, remote)
  {
  }

  /** The rejection text carries the refused address. */
  lemma RejectionNamesAddress(ip: string)
    ensures Utf8.Decode(RejectionBody(ip).data) == RejectionMessage(ip)
  {
    var m := RejectionMessage(ip);
    assert m[0] == 'Y';
    assert !IsJavaWhitespace(m[0]);
  }
}
