// The client's group address error (client/src/address/group_address.rs): a
// kind and a message. The two-level parser and the dispatcher build errors
// with a kind; the free-level and three-level parsers build them from a
// message alone, so here those errors carry no kind.
module AddressError {
  import opened Wrappers

  datatype ErrorKind = Empty | Invalid | MainOverflow | MiddleOverflow | SubOverflow

  datatype GroupAddressError = GroupAddressError(kind: Option<ErrorKind>, message: string)

  /** `GroupAddressError::new(kind, message)`. */
  function Kinded(kind: ErrorKind, message: string): (e: GroupAddressError)
    ensures e.kind == Some(kind) && e.message == message
  {
    GroupAddressError(Some(kind), message)
  }

  /** The message-only construction of the free-level and three-level parsers. */
  function Untyped(message: string): (e: GroupAddressError)
    ensures e.kind.None? && e.message == message
  {
    GroupAddressError(None, message)
  }

  const DisplayPrefix := "Group Address: "

  /**
   * Display: the message behind a fixed prefix, so the message reads back
   * from the text; the kind is not shown.
   */
  function ErrorText(e: GroupAddressError): (s: string)
    ensures |s| == |DisplayPrefix| + |e.message|
    ensures s[..|DisplayPrefix|] == DisplayPrefix && s[|DisplayPrefix|..] == e.message
  {
    DisplayPrefix + e.message
  }
}
