// The status codes the client reads from a response (client/src/protocol/status.rs).
module ClientStatus {
  import opened Bytes
  import opened Wrappers

  datatype Status =
    | Success
    | Error
    | ErrorRequest
    | ErrorTimeout
    | ErrorGroupAddress
    | ErrorDataPointType
    | ErrorClientNotAuthorized

  /** The error of a byte that names no status. */
  datatype UnknownStatusError = UnknownStatusError

  /** `From<Status> for u8`: the codes 0 to 6 in declaration order. */
  function ToByte(s: Status): (b: uint8)
    ensures b < 7
  {
    match s
    case Success => 0
    case Error => 1
    case ErrorRequest => 2
    case ErrorTimeout => 3
    case ErrorGroupAddress => 4
    case ErrorDataPointType => 5
    case ErrorClientNotAuthorized => 6
  }

  /** `TryFrom<u8>`: the status with that code; 7 to 255 are unknown. */
  function TryFrom(value: uint8): (r: Result<Status, UnknownStatusError>)
    ensures r.Ok? <==> value < 7
    ensures r.Ok? ==> ToByte(r.value) == value
  {
    match value
    case 0 => Ok(Success)
    case 1 => Ok(Error)
    case 2 => Ok(ErrorRequest)
    case 3 => Ok(ErrorTimeout)
    case 4 => Ok(ErrorGroupAddress)
    case 5 => Ok(ErrorDataPointType)
    case 6 => Ok(ErrorClientNotAuthorized)
    case _ => Err(UnknownStatusError)
  }

  /** Every status survives the trip through its byte. */
  lemma {:induction false} RoundTrip(s: Status)
    ensures TryFrom(ToByte(s)) == Ok(s)
  {
    match s
    case Success =>
    case Error =>
    case ErrorRequest =>
    case ErrorTimeout =>
    case ErrorGroupAddress =>
    case ErrorDataPointType =>
    case ErrorClientNotAuthorized =>
  }

  /** Distinct statuses have distinct bytes. */
  lemma ToByteInjective(s: Status, t: Status)
    requires ToByte(s) == ToByte(t)
    ensures s == t
  {
    RoundTrip(s);
    RoundTrip(t);
  }
}
