// A free-level group address of the client
// (client/src/address/group_address_free_level.rs): one 16-bit number, zero
// excluded.
module FreeLevel {
  import opened Bytes
  import opened Wrappers
  import opened Text
  import opened AddressError

  datatype FreeLevel = FreeLevel(address: uint16)

  /** The addresses the constructors admit. */
  predicate Valid(g: FreeLevel)
  {
    g.address != 0
  }

  /** `GroupAddressFreeLevel::new`. */
  function New(address: uint16): (r: Result<FreeLevel, GroupAddressError>)
    ensures r.Ok? <==> address != 0
    ensures r.Ok? ==> r.value.address == address && Valid(r.value)
    ensures r.Err? ==> r.error == Untyped("Address 0 is not allowed!")
  {
    if address == 0 then Err(Untyped("Address 0 is not allowed!"))
    else Ok(FreeLevel(address))
  }

  /** `as_bytes`: the address big-endian. */
  function AsBytes(g: FreeLevel): (r: seq<uint8>)
    ensures |r| == 2 && Word(r[0], r[1]) == g.address
  {
    [g.address / 0x100, g.address % 0x100]
  }

  /** `TryFrom<[u8; 2]>`: the big-endian word, the zero pair refused. */
  function FromBytes(b0: uint8, b1: uint8): (r: Result<FreeLevel, GroupAddressError>)
    ensures r.Ok? <==> !(b0 == 0 && b1 == 0)
    ensures r.Ok? ==> Valid(r.value) && AsBytes(r.value) == [b0, b1]
    ensures r.Err? ==> r.error == Untyped("Address [0,0] is not allowed because it would lead to address 0")
  {
    if b0 == 0 && b1 == 0 then Err(Untyped("Address [0,0] is not allowed because it would lead to address 0"))
    else Ok(FreeLevel(b0 * 0x100 + b1))
  }

  /** `Display`: the number in decimal. */
  function Display(g: FreeLevel): (s: string)
    ensures |s| > 0 && '/' !in s
  {
    NoSeparatorInDecimal(g.address, '/');
    Decimal(g.address)
  }

  const RangeMessage := "Address must be between [1-65535], but got: "

  /**
   * `FromStr`: a text spelling a number in 1..65535 is that address; a text
   * spelling 0 passes the parse and is refused by `new`; any other text is
   * refused with the range message.
   */
  function FromStr(s: string): (r: Result<FreeLevel, GroupAddressError>)
    ensures r.Ok? ==> Valid(r.value) && Reads(s, r.value.address)
    ensures forall n: nat {:trigger Reads(s, n)} :: 1 <= n <= 0xFFFF && Reads(s, n) ==> r == Ok(FreeLevel(n))
    ensures Reads(s, 0) ==> r == Err(Untyped("Address 0 is not allowed!"))
    ensures r.Err? && !Reads(s, 0) ==> r == Err(Untyped(RangeMessage + s))
  {
    ParseReads(s, 0xFFFF);
    match ParseUnsigned(s, 0xFFFF)
    case None => Err(Untyped(RangeMessage + s))
    case Some(value) => New(value)
  }

  /** Decoding the bytes of an address gives it back. */
  lemma BytesRoundTrip(g: FreeLevel)
    requires Valid(g)
    ensures FromBytes(AsBytes(g)[0], AsBytes(g)[1]) == Ok(g)
  {
  }

  /** Parsing the text of an address gives it back. */
  lemma TextRoundTrip(g: FreeLevel)
    requires Valid(g)
    ensures FromStr(Display(g)) == Ok(g)
  {
    ParseDecimal(g.address, 0xFFFF);
  }
}
