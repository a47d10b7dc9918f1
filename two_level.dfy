// A two-level group address of the client
// (client/src/address/group_address_two_level.rs): a 5-bit main group and an
// 11-bit sub group, `0/0` excluded.
module TwoLevel {
  import opened Bytes
  import opened Wrappers
  import opened Text
  import opened AddressError

  datatype TwoLevel = TwoLevel(main: uint8, sub: uint16)

  /** The addresses the constructors admit. */
  predicate Valid(g: TwoLevel)
  {
    g.main <= 31 && g.sub <= 2047 && !(g.main == 0 && g.sub == 0)
  }

  /** `GroupAddressTwoLevel::new`: the main range, then the sub range, then `0/0`. */
  function New(main: uint8, sub: uint16): (r: Result<TwoLevel, GroupAddressError>)
    ensures r.Ok? <==> Valid(TwoLevel(main, sub))
    ensures r.Ok? ==> r.value == TwoLevel(main, sub)
    ensures main > 31 ==> r == Err(Kinded(MainOverflow, "Main must between 0 and 31"))
    ensures main <= 31 && sub > 2047 ==> r == Err(Kinded(SubOverflow, "Sub must between 0 and 2047"))
    ensures main == 0 && sub == 0 ==> r == Err(Kinded(Invalid, "Address 0/0 is not allowed"))
  {
    if main > 31 then Err(Kinded(MainOverflow, "Main must between 0 and 31"))
    else if sub > 2047 then Err(Kinded(SubOverflow, "Sub must between 0 and 2047"))
    else if main == 0 && sub == 0 then Err(Kinded(Invalid, "Address 0/0 is not allowed"))
    else Ok(TwoLevel(main, sub))
  }

  /** `as_bytes`: `[(main & 31) << 3 | (sub >> 8) & 7, sub & 0xFF]`. */
  function AsBytes(g: TwoLevel): (r: seq<uint8>)
    ensures |r| == 2
  {
    [Or8((g.main % 32) * 8, (g.sub / 0x100) % 8), g.sub % 0x100]
  }

  /** For an admitted address the first byte is the main group over the top three sub bits. */
  lemma AsBytesFields(g: TwoLevel)
    requires Valid(g)
    ensures AsBytes(g) == [g.main * 8 + g.sub / 0x100, g.sub % 0x100]
  {
    var k := g.sub / 0x100;
    assert k < 8 && k % 8 == k && g.main % 32 == g.main;
    OrLowBits(g.main, k);
  }

  /** `TryFrom<[u8; 2]>`: main from the top five bits, sub from the rest; the zero pair refused. */
  function FromBytes(b0: uint8, b1: uint8): (r: Result<TwoLevel, GroupAddressError>)
    ensures r.Ok? <==> !(b0 == 0 && b1 == 0)
    ensures r.Ok? ==> Valid(r.value) && AsBytes(r.value) == [b0, b1]
    ensures r.Err? ==> r.error == Kinded(Invalid, "Address [0,0] is not allowed because it would lead to address 0/0")
  {
    if b0 == 0 && b1 == 0 then
      Err(Kinded(Invalid, "Address [0,0] is not allowed because it would lead to address 0/0"))
    else
      var g := TwoLevel(b0 / 8, (b0 % 8) * 0x100 + b1);
      DivModByte(b0 % 8, b1);
      assert (b0 / 8) * 8 + b0 % 8 == b0;
      AsBytesFields(g);
      Ok(g)
  }

  /** `Display`: `main/sub`. */
  function Display(g: TwoLevel): (s: string)
    ensures Count(s, '/') == 1
  {
    NoSeparatorInDecimal(g.main, '/');
    NoSeparatorInDecimal(g.sub, '/');
    CountConcat(Decimal(g.main), "/", '/');
    CountConcat(Decimal(g.main) + "/", Decimal(g.sub), '/');
    Decimal(g.main) + "/" + Decimal(g.sub)
  }

  /**
   * `FromStr`: exactly two `/`-separated parts; a main part that is no 8-bit
   * number and a sub part that is no 16-bit number are overflows; otherwise
   * `new` decides.
   */
  function FromStr(s: string): (r: Result<TwoLevel, GroupAddressError>)
    ensures r.Err? ==> r.error.kind.Some?
    ensures Count(s, '/') != 1 ==> r == Err(Kinded(Invalid, "Wrong format. Expected: #/#"))
    ensures r.Ok? ==> Valid(r.value)
  {
    var split := Split(s, '/');
    if |split| != 2 then Err(Kinded(Invalid, "Wrong format. Expected: #/#"))
    else
      match ParseUnsigned(split[0], 0xFF)
      case None => Err(Kinded(MainOverflow, "Main must between 0 and 31"))
      case Some(main) =>
        match ParseUnsigned(split[1], 0xFFFF)
        case None => Err(Kinded(SubOverflow, "Sub must between 0 and 2047"))
        case Some(sub) => New(main, sub)
  }

  /** Decoding the bytes of an address gives it back. */
  lemma BytesRoundTrip(g: TwoLevel)
    requires Valid(g)
    ensures FromBytes(AsBytes(g)[0], AsBytes(g)[1]) == Ok(g)
  {
    AsBytesFields(g);
    var k, lo := g.sub / 0x100, g.sub % 0x100;
    assert k < 8 && k * 0x100 + lo == g.sub;
    DivModEight(g.main, k);
    assert FromBytes(g.main * 8 + k, lo) == Ok(TwoLevel(g.main, k * 0x100 + lo));
  }

  /** Parsing the text of an address gives it back. */
  lemma {:induction false} TextRoundTrip(g: TwoLevel)
    requires Valid(g)
    ensures FromStr(Display(g)) == Ok(g)
  {
    var m, s := Decimal(g.main), Decimal(g.sub);
    NoSeparatorInDecimal(g.main, '/');
    NoSeparatorInDecimal(g.sub, '/');
    assert Display(g) == m + ['/'] + s;
    SplitPrefix(m, '/', s);
    SplitNone(s, '/');
    ParseDecimal(g.main, 0xFF);
    ParseDecimal(g.sub, 0xFFFF);
  }

  /** The parts of a `main/sub` text that parse as numbers decide through `new`. */
  lemma {:induction false} FromStrParts(main: string, sub: string)
    requires '/' !in main && '/' !in sub
    ensures var r := FromStr(main + "/" + sub);
      && (ParseUnsigned(main, 0xFF).None? ==> r == Err(Kinded(MainOverflow, "Main must between 0 and 31")))
      && (ParseUnsigned(main, 0xFF).Some? && ParseUnsigned(sub, 0xFFFF).None? ==>
            r == Err(Kinded(SubOverflow, "Sub must between 0 and 2047")))
      && (ParseUnsigned(main, 0xFF).Some? && ParseUnsigned(sub, 0xFFFF).Some? ==>
            r == New(ParseUnsigned(main, 0xFF).value, ParseUnsigned(sub, 0xFFFF).value))
  {
    assert main + "/" + sub == main + ['/'] + sub;
    SplitPrefix(main, '/', sub);
    SplitNone(sub, '/');
  }

  /** `14/1733` packs to `0x76 0xC5`. */
  lemma Example()
    ensures AsBytes(TwoLevel(14, 1733)) == [0x76, 0xC5]
  {
    AsBytesFields(TwoLevel(14, 1733));
  }
}
