// The client's group address (client/src/address/group_address.rs): the text
// is read as three-level, two-level or free-level by the number of `/` in it,
// and only the two bytes of the chosen form are kept.
module ClientGroupAddress {
  import opened Bytes
  import opened Wrappers
  import opened Text
  import opened AddressError
  import FreeLevel
  import TwoLevel
  import ThreeLevel

  datatype GroupAddress = GroupAddress(address: seq<uint8>)

  const UnsupportedFormat := "Unsupported group address format provided. Supported are: #/#/#, #/# or #"

  /** `TryFrom<&str>`: dispatch on the number of `/`; the chosen parser's errors pass unchanged. */
  function TryFrom(value: string): (r: Result<GroupAddress, GroupAddressError>)
    ensures r.Ok? ==> |r.value.address| == 2 && r.value.address != [0, 0]
    ensures Count(value, '/') > 2 ==> r == Err(Kinded(Invalid, UnsupportedFormat))
    // two `/`: read as three-level
    ensures Count(value, '/') == 2 ==> (r.Ok? <==> ThreeLevel.FromStr(value).Ok?)
    ensures Count(value, '/') == 2 && r.Ok? ==> r.value.address == ThreeLevel.AsBytes(ThreeLevel.FromStr(value).value)
    ensures Count(value, '/') == 2 && r.Err? ==> r.error == ThreeLevel.FromStr(value).error
    // one `/`: read as two-level
    ensures Count(value, '/') == 1 ==> (r.Ok? <==> TwoLevel.FromStr(value).Ok?)
    ensures Count(value, '/') == 1 && r.Ok? ==> r.value.address == TwoLevel.AsBytes(TwoLevel.FromStr(value).value)
    ensures Count(value, '/') == 1 && r.Err? ==> r.error == TwoLevel.FromStr(value).error
    // no `/`: read as free-level
    ensures Count(value, '/') == 0 ==> (r.Ok? <==> FreeLevel.FromStr(value).Ok?)
    ensures Count(value, '/') == 0 && r.Ok? ==> r.value.address == FreeLevel.AsBytes(FreeLevel.FromStr(value).value)
    ensures Count(value, '/') == 0 && r.Err? ==> r.error == FreeLevel.FromStr(value).error
  {
    var slashes := Count(value, '/');
    if slashes == 2 then
      match ThreeLevel.FromStr(value)
      case Ok(ga) =>
        ThreeLevel.AsBytesFields(ga);
        Ok(GroupAddress(ThreeLevel.AsBytes(ga)))
      case Err(e) => Err(e)
    else if slashes == 1 then
      match TwoLevel.FromStr(value)
      case Ok(ga) =>
        TwoLevel.AsBytesFields(ga);
        Ok(GroupAddress(TwoLevel.AsBytes(ga)))
      case Err(e) => Err(e)
    else if slashes == 0 then
      match FreeLevel.FromStr(value)
      case Ok(ga) => Ok(GroupAddress(FreeLevel.AsBytes(ga)))
      case Err(e) => Err(e)
    else
      Err(Kinded(Invalid, UnsupportedFormat))
  }

  /** `as_bytes`: the stored pair. */
  function AsBytes(g: GroupAddress): seq<uint8>
  {
    g.address
  }

  /** The text of a three-level address is read as three-level: its bytes are kept. */
  lemma ThreeLevelText(g: ThreeLevel.ThreeLevel)
    requires ThreeLevel.Valid(g)
    ensures TryFrom(ThreeLevel.Display(g)) == Ok(GroupAddress(ThreeLevel.AsBytes(g)))
  {
    ThreeLevel.TextRoundTrip(g);
  }

  /** The text of a two-level address is read as two-level. */
  lemma TwoLevelText(g: TwoLevel.TwoLevel)
    requires TwoLevel.Valid(g)
    ensures TryFrom(TwoLevel.Display(g)) == Ok(GroupAddress(TwoLevel.AsBytes(g)))
  {
    TwoLevel.TextRoundTrip(g);
  }

  /** The text of a free-level address is read as free-level. */
  lemma FreeLevelText(g: FreeLevel.FreeLevel)
    requires FreeLevel.Valid(g)
    ensures TryFrom(FreeLevel.Display(g)) == Ok(GroupAddress(FreeLevel.AsBytes(g)))
  {
    FreeLevel.TextRoundTrip(g);
  }

  /**
   * The kinds of the errors: a two-level text fails with a kinded error, a
   * text with more than two `/` as invalid, while three-level and
   * free-level texts fail with message-only errors. The kinds the tests
   * expect for three-level texts (`0/0/0` invalid, `32/2/3` a main overflow)
   * are therefore not produced.
   */
  lemma ErrorKinds(value: string)
    requires TryFrom(value).Err?
    ensures Count(value, '/') == 1 ==> TryFrom(value).error.kind.Some?
    ensures Count(value, '/') == 0 || Count(value, '/') == 2 ==> TryFrom(value).error.kind.None?
    ensures Count(value, '/') > 2 ==> TryFrom(value).error.kind == Some(Invalid)
  {
  }

  /**
   * A three-level text of numbers that `new` refuses (`0/0/0`, `32/2/3`,
   * `1/8/3`) fails with `new`'s message-only error.
   */
  lemma ThreeLevelRefused(main: uint8, middle: uint8, sub: uint8)
    requires !ThreeLevel.Valid(ThreeLevel.ThreeLevel(main, middle, sub))
    ensures TryFrom(ThreeLevel.Display(ThreeLevel.ThreeLevel(main, middle, sub)))
         == Err(ThreeLevel.New(main, middle, sub).error)
    ensures TryFrom(ThreeLevel.Display(ThreeLevel.ThreeLevel(main, middle, sub))).error.kind.None?
  {
    NoSeparatorInDecimal(main, '/');
    NoSeparatorInDecimal(middle, '/');
    NoSeparatorInDecimal(sub, '/');
    ThreeLevel.SplitSlashes(Decimal(main), Decimal(middle), Decimal(sub));
    ParseDecimal(main, 0xFF);
    ParseDecimal(middle, 0xFF);
    ParseDecimal(sub, 0xFF);
  }
}
