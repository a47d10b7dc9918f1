// A three-level group address of the client
// (client/src/address/group_address_three_level.rs): a 5-bit main group, a
// 3-bit middle group and an 8-bit sub group, `0/0/0` excluded. Its errors
// are built from a message alone and carry no kind.
module ThreeLevel {
  import opened Bytes
  import opened Wrappers
  import opened Text
  import opened AddressError

  datatype ThreeLevel = ThreeLevel(main: uint8, middle: uint8, sub: uint8)

  /** The addresses the constructors admit. */
  predicate Valid(g: ThreeLevel)
  {
    g.main <= 31 && g.middle <= 7 && !(g.main == 0 && g.middle == 0 && g.sub == 0)
  }

  /** `GroupAddressThreeLevel::new`: the main range, then the middle range, then `0/0/0`. */
  function New(main: uint8, middle: uint8, sub: uint8): (r: Result<ThreeLevel, GroupAddressError>)
    ensures r.Ok? <==> Valid(ThreeLevel(main, middle, sub))
    ensures r.Ok? ==> r.value == ThreeLevel(main, middle, sub)
    ensures r.Err? ==> r.error.kind.None?
    ensures main > 31 ==> r == Err(Untyped("Main must between 0 and 31 but was: " + Decimal(main)))
    ensures main <= 31 && middle > 7 ==> r == Err(Untyped("Middle must between 0 and 7 but was: " + Decimal(middle)))
    ensures main == 0 && middle == 0 && sub == 0 ==> r == Err(Untyped("Address 0/0/0 is not allowed!"))
  {
    if main > 31 then Err(Untyped("Main must between 0 and 31 but was: " + Decimal(main)))
    else if middle > 7 then Err(Untyped("Middle must between 0 and 7 but was: " + Decimal(middle)))
    else if main == 0 && middle == 0 && sub == 0 then Err(Untyped("Address 0/0/0 is not allowed!"))
    else Ok(ThreeLevel(main, middle, sub))
  }

  /** `as_bytes`: `[(main & 31) << 3 | middle, sub]`. */
  function AsBytes(g: ThreeLevel): (r: seq<uint8>)
    ensures |r| == 2
  {
    [Or8((g.main % 32) * 8, g.middle), g.sub]
  }

  /** For an admitted address the first byte is the main group over the middle group. */
  lemma AsBytesFields(g: ThreeLevel)
    requires Valid(g)
    ensures AsBytes(g) == [g.main * 8 + g.middle, g.sub]
  {
    assert g.main % 32 == g.main;
    OrLowBits(g.main, g.middle);
  }

  /** `TryFrom<[u8; 2]>`: main, middle and sub from 5, 3 and 8 bits; the zero pair refused. */
  function FromBytes(b0: uint8, b1: uint8): (r: Result<ThreeLevel, GroupAddressError>)
    ensures r.Ok? <==> !(b0 == 0 && b1 == 0)
    ensures r.Ok? ==> Valid(r.value) && AsBytes(r.value) == [b0, b1]
    ensures r.Err? ==> r.error == Untyped("Address [0,0] is not allowed because it would lead to address 0/0/0")
  {
    if b0 == 0 && b1 == 0 then
      Err(Untyped("Address [0,0] is not allowed because it would lead to address 0/0/0"))
    else
      var g := ThreeLevel(b0 / 8, b0 % 8, b1);
      AsBytesFields(g);
      Ok(g)
  }

  /** `Display`: `main/middle/sub`. */
  function Display(g: ThreeLevel): (s: string)
    ensures Count(s, '/') == 2
  {
    NoSeparatorInDecimal(g.main, '/');
    NoSeparatorInDecimal(g.middle, '/');
    NoSeparatorInDecimal(g.sub, '/');
    CountConcat(Decimal(g.main), "/", '/');
    CountConcat(Decimal(g.main) + "/", Decimal(g.middle), '/');
    CountConcat(Decimal(g.main) + "/" + Decimal(g.middle), "/", '/');
    CountConcat(Decimal(g.main) + "/" + Decimal(g.middle) + "/", Decimal(g.sub), '/');
    Decimal(g.main) + "/" + Decimal(g.middle) + "/" + Decimal(g.sub)
  }

  /**
   * `FromStr`: exactly three `/`-separated parts, each an 8-bit number (a part
   * that is not is named in the message); then `new` decides.
   */
  function FromStr(s: string): (r: Result<ThreeLevel, GroupAddressError>)
    ensures r.Err? ==> r.error.kind.None?
    ensures Count(s, '/') != 2 ==> r == Err(Untyped("Unsupported format. Expected '1/1/1', but got: " + s))
    ensures r.Ok? ==> Valid(r.value)
  {
    var split := Split(s, '/');
    if |split| != 3 then Err(Untyped("Unsupported format. Expected '1/1/1', but got: " + s))
    else
      match ParseUnsigned(split[0], 0xFF)
      case None => Err(Untyped("Main must between 0 and 31 but was: " + split[0]))
      case Some(main) =>
        match ParseUnsigned(split[1], 0xFF)
        case None => Err(Untyped("Middle must between 0 and 7 but was: " + split[1]))
        case Some(middle) =>
          match ParseUnsigned(split[2], 0xFF)
          case None => Err(Untyped("Sub must between 0 and 255 but was: " + split[2]))
          case Some(sub) => New(main, middle, sub)
  }

  /** Decoding the bytes of an address gives it back. */
  lemma BytesRoundTrip(g: ThreeLevel)
    requires Valid(g)
    ensures FromBytes(AsBytes(g)[0], AsBytes(g)[1]) == Ok(g)
  {
    AsBytesFields(g);
    DivModEight(g.main, g.middle);
  }

  /** The three parts of a `main/middle/sub` text. */
  lemma SplitSlashes(a: string, b: string, c: string)
    requires '/' !in a && '/' !in b && '/' !in c
    ensures Split(a + "/" + b + "/" + c, '/') == [a, b, c]
  {
    SplitThree(a, b, c, '/');
  }

  /** Parsing the text of an address gives it back. */
  lemma {:induction false} TextRoundTrip(g: ThreeLevel)
    requires Valid(g)
    ensures FromStr(Display(g)) == Ok(g)
  {
    NoSeparatorInDecimal(g.main, '/');
    NoSeparatorInDecimal(g.middle, '/');
    NoSeparatorInDecimal(g.sub, '/');
    SplitSlashes(Decimal(g.main), Decimal(g.middle), Decimal(g.sub));
    ParseDecimal(g.main, 0xFF);
    ParseDecimal(g.middle, 0xFF);
    ParseDecimal(g.sub, 0xFF);
  }

  /**
   * Parts that parse as 8-bit numbers decide through `new`; the first part
   * that does not is named in the message.
   */
  lemma {:induction false} FromStrParts(main: string, middle: string, sub: string)
    requires '/' !in main && '/' !in middle && '/' !in sub
    ensures var r := FromStr(main + "/" + middle + "/" + sub);
      && (ParseUnsigned(main, 0xFF).None? ==> r == Err(Untyped("Main must between 0 and 31 but was: " + main)))
      && (ParseUnsigned(main, 0xFF).Some? && ParseUnsigned(middle, 0xFF).None? ==>
            r == Err(Untyped("Middle must between 0 and 7 but was: " + middle)))
      && (ParseUnsigned(main, 0xFF).Some? && ParseUnsigned(middle, 0xFF).Some? && ParseUnsigned(sub, 0xFF).None? ==>
            r == Err(Untyped("Sub must between 0 and 255 but was: " + sub)))
      && (ParseUnsigned(main, 0xFF).Some? && ParseUnsigned(middle, 0xFF).Some? && ParseUnsigned(sub, 0xFF).Some? ==>
            r == New(ParseUnsigned(main, 0xFF).value, ParseUnsigned(middle, 0xFF).value, ParseUnsigned(sub, 0xFF).value))
  {
    SplitSlashes(main, middle, sub);
  }

  /** `1/2/3` packs to `0x0A 0x03` and `12/3/45` to `0x63 0x2D`. */
  lemma Examples()
    ensures AsBytes(ThreeLevel(1, 2, 3)) == [0x0A, 0x03]
    ensures AsBytes(ThreeLevel(12, 3, 45)) == [0x63, 0x2D]
  {
    AsBytesFields(ThreeLevel(1, 2, 3));
    AsBytesFields(ThreeLevel(12, 3, 45));
  }
}
