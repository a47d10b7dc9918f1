// The status a gateway reply carries in the low bits of its first body byte.
module ServerStatus {
  import opened Bytes
  import opened Wrappers
  import opened Failures

  datatype Status =
    | Success
    | Error
    | ErrorRequest
    | ErrorTimeout
    | ErrorGroupAddress
    | ErrorIncompatibleDataPointType
    | ErrorClientNotAuthorized

  /** The code each constant is declared with. */
  function Code(s: Status): (c: uint8)
    ensures c < 7
  {
    match s
    case Success => 0x00
    case Error => 0x01
    case ErrorRequest => 0x02
    case ErrorTimeout => 0x03
    case ErrorGroupAddress => 0x04
    case ErrorIncompatibleDataPointType => 0x05
    case ErrorClientNotAuthorized => 0x06
  }

  /** Status.of: the constant with the given code, or the enum-not-found failure. */
  function Of(code: int): (r: Result<Status, Failure>)
    ensures r.Ok? <==> 0 <= code < 7
    ensures r.Ok? ==> Code(r.value) == code
    ensures r.Err? ==> r.error == EnumNotFound(code)
  {
    if code == 0x00 then Ok(Success)
    else if code == 0x01 then Ok(Error)
    else if code == 0x02 then Ok(ErrorRequest)
    else if code == 0x03 then Ok(ErrorTimeout)
    else if code == 0x04 then Ok(ErrorGroupAddress)
    else if code == 0x05 then Ok(ErrorIncompatibleDataPointType)
    else if code == 0x06 then Ok(ErrorClientNotAuthorized)
    else Err(EnumNotFound(code))
  }

  /** Status.getByte, written as `code % 0xFF`; every code is below 0xFF, so it is the code. */
  function GetByte(s: Status): (b: uint8)
    ensures b == Code(s) && b < 0x10
  {
    Code(s) % 0xFF
  }

  /** Looking a status up by its own code finds it again. */
  lemma OfCode(s: Status)
    ensures Of(Code(s)) == Ok(s)
  {
  }

  /** Distinct statuses have distinct codes. */
  lemma CodeInjective(s: Status, t: Status)
    ensures Code(s) == Code(t) ==> s == t
  {
    OfCode(s);
    OfCode(t);
  }
}
