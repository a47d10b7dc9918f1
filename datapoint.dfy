// The client's datapoint type (client/src/datapoint/datapoint.rs): a main
// and a sub number, read from `#.#`, `dpt-#`, `dpst-#-#` or `#` and sent as
// four big-endian bytes. The patterns' digit classes are taken as ASCII
// digits.
module Datapoint {
  import opened Bytes
  import opened Wrappers
  import opened Text

  datatype DataPointError = DataPointError(message: string)

  datatype DataPoint = DataPoint(dpt: uint16, dpst: uint16)

  const GenericFormat := "Wrong data point format. Expected: #, #.#, dpt-# or dpst-#-#"
  const MainRange := "Main Data Point Type must be between 0 and 65535"
  const SubRange := "Sub Data Point Type must be between 0 and 65535"
  const TypeRange := "Data Point Type must be between 0 and 65535"

  /**
   * `Display`: `dpt-N` without a sub number, `dpst-N-M` with one; the text
   * reads back as the datapoint.
   */
  function Display(d: DataPoint): (s: string)
    ensures TryFrom(s) == Ok(d)
  {
    if d.dpst == 0 then
      DptText(d.dpt);
      "dpt-" + Decimal(d.dpt)
    else
      DpstText(d.dpt, d.dpst);
      "dpst-" + Decimal(d.dpt) + "-" + Decimal(d.dpst)
  }

  /** `as_bytes`: the main number, then the sub number, each big-endian. */
  function AsBytes(d: DataPoint): (r: seq<uint8>)
    ensures |r| == 4 && Word(r[0], r[1]) == d.dpt && Word(r[2], r[3]) == d.dpst
  {
    [d.dpt / 0x100, d.dpt % 0x100, d.dpst / 0x100, d.dpst % 0x100]
  }

  /** Two captured numbers: each must fit 16 bits, main first. */
  function Numbers(main: string, sub: string): (r: Result<DataPoint, DataPointError>)
    requires Number(main) && Number(sub)
    ensures r.Ok? <==> DigitsValue(main) <= 0xFFFF && DigitsValue(sub) <= 0xFFFF
    ensures r.Ok? ==> r.value == DataPoint(DigitsValue(main), DigitsValue(sub))
    ensures DigitsValue(main) > 0xFFFF ==> r == Err(DataPointError(MainRange))
    ensures DigitsValue(main) <= 0xFFFF && DigitsValue(sub) > 0xFFFF ==> r == Err(DataPointError(SubRange))
  {
    match ParseUnsigned(main, 0xFFFF)
    case None => Err(DataPointError(MainRange))
    case Some(dpt) =>
      match ParseUnsigned(sub, 0xFFFF)
      case None => Err(DataPointError(SubRange))
      case Some(dpst) => Ok(DataPoint(dpt, dpst))
  }

  const DotFormat := "Wrong data point format. Expected: #.#"
  const DptFormat := "Wrong data point format. Expected: dpt-#"
  const DpstFormat := "Wrong data point format. Expected: dpst-#-#"

  // What each pattern matches, and the four forms a datapoint text takes,
  // stated on the digit runs the patterns capture: `#.#`, then `dpt-#` and
  // `dpst-#-#` in any case, then `#`.

  /** `^(\d+)\.(\d+)$` matches: two digit runs around one dot. */
  predicate DotPattern(value: string)
  {
    var parts := Split(value, '.');
    |parts| == 2 && Number(parts[0]) && Number(parts[1])
  }

  /** `^(?:dpt-)(\d+)$` matches the lower-case text. */
  predicate DptPattern(value: string)
  {
    var l := LowerAsciiText(value);
    StartsWith(l, "dpt-") && Number(l[4..])
  }

  /** `^(?:dpst-)(\d+)-(\d+)$` matches the lower-case text. */
  predicate DpstPattern(value: string)
  {
    var l := LowerAsciiText(value);
    StartsWith(l, "dpst-")
    && var parts := Split(l[5..], '-');
    |parts| == 2 && Number(parts[0]) && Number(parts[1])
  }

  predicate DotForm(value: string, d: DataPoint)
  {
    DotPattern(value)
    && var parts := Split(value, '.');
    DigitsValue(parts[0]) == d.dpt && DigitsValue(parts[1]) == d.dpst
  }

  predicate DptForm(value: string, d: DataPoint)
  {
    DptPattern(value)
    && var l := LowerAsciiText(value);
    DigitsValue(l[4..]) == d.dpt && d.dpst == 0
  }

  predicate DpstForm(value: string, d: DataPoint)
  {
    DpstPattern(value)
    && var parts := Split(LowerAsciiText(value)[5..], '-');
    DigitsValue(parts[0]) == d.dpt && DigitsValue(parts[1]) == d.dpst
  }

  predicate BareForm(value: string, d: DataPoint)
  {
    Number(value) && DigitsValue(value) == d.dpt && d.dpst == 0
  }

  /**
   * `parse_with_dot`: a text the pattern matches gives its two numbers, the
   * main number's range checked first; any other text is the `#.#` format
   * error.
   */
  function ParseWithDot(s: string): (r: Result<DataPoint, DataPointError>)
    ensures r.Ok? ==> DotForm(s, r.value)
    ensures !DotPattern(s) <==> r == Err(DataPointError(DotFormat))
    ensures DotPattern(s) && DigitsValue(Split(s, '.')[0]) > 0xFFFF ==> r == Err(DataPointError(MainRange))
    ensures DotPattern(s) && DigitsValue(Split(s, '.')[0]) <= 0xFFFF && DigitsValue(Split(s, '.')[1]) > 0xFFFF ==>
      r == Err(DataPointError(SubRange))
  {
    var parts := Split(s, '.');
    if |parts| == 2 && Number(parts[0]) && Number(parts[1]) then Numbers(parts[0], parts[1])
    else Err(DataPointError(DotFormat))
  }

  /**
   * `parse_with_dpt`: a lower-case text the pattern matches gives its number
   * with sub number 0, or the range error; any other text is the `dpt-#`
   * format error.
   */
  function ParseWithDpt(s: string): (r: Result<DataPoint, DataPointError>)
    ensures r.Ok? ==> DptForm(s, r.value)
    ensures !DptPattern(s) <==> r == Err(DataPointError(DptFormat))
    ensures DptPattern(s) && DigitsValue(LowerAsciiText(s)[4..]) > 0xFFFF ==> r == Err(DataPointError(TypeRange))
  {
    var l := LowerAsciiText(s);
    if StartsWith(l, "dpt-") && Number(l[4..]) then
      match ParseUnsigned(l[4..], 0xFFFF)
      case None => Err(DataPointError(TypeRange))
      case Some(dpt) => Ok(DataPoint(dpt, 0))
    else Err(DataPointError(DptFormat))
  }

  /**
   * `parse_with_dpst`: a lower-case text the pattern matches gives its two
   * numbers, the main number's range checked first; any other text is the
   * `dpst-#-#` format error.
   */
  function ParseWithDpst(s: string): (r: Result<DataPoint, DataPointError>)
    ensures r.Ok? ==> DpstForm(s, r.value)
    ensures !DpstPattern(s) <==> r == Err(DataPointError(DpstFormat))
    ensures DpstPattern(s) && DigitsValue(Split(LowerAsciiText(s)[5..], '-')[0]) > 0xFFFF ==>
      r == Err(DataPointError(MainRange))
    ensures && DpstPattern(s)
            && DigitsValue(Split(LowerAsciiText(s)[5..], '-')[0]) <= 0xFFFF
            && DigitsValue(Split(LowerAsciiText(s)[5..], '-')[1]) > 0xFFFF
            ==> r == Err(DataPointError(SubRange))
  {
    var l := LowerAsciiText(s);
    if StartsWith(l, "dpst-") then
      var parts := Split(l[5..], '-');
      if |parts| == 2 && Number(parts[0]) && Number(parts[1]) then Numbers(parts[0], parts[1])
      else Err(DataPointError(DpstFormat))
    else Err(DataPointError(DpstFormat))
  }

  /** `parse_with_numbers`: `u16::from_str`; the sub number is 0. */
  function ParseWithNumbers(s: string): (r: Result<DataPoint, DataPointError>)
    ensures r.Ok? ==> r.value.dpst == 0 && Reads(s, r.value.dpt)
    ensures Number(s) && DigitsValue(s) <= 0xFFFF ==> r == Ok(DataPoint(DigitsValue(s), 0))
    ensures r.Err? ==> r.error == DataPointError(TypeRange)
  {
    ParseReads(s, 0xFFFF);
    match ParseUnsigned(s, 0xFFFF)
    case None => Err(DataPointError(TypeRange))
    case Some(dpt) => Ok(DataPoint(dpt, 0))
  }

  /** `value` is a text of `d` in one of the four forms, its numbers in range. */
  predicate Denotes(value: string, d: DataPoint)
  {
    DotForm(value, d) || DptForm(value, d) || DpstForm(value, d) || BareForm(value, d)
  }

  /**
   * `TryFrom<&str>`: a dot selects `#.#`; otherwise a `dpt-` or `dpst-`
   * prefix in any case; otherwise an all-digit text (the empty text
   * included); anything else is the generic format error.
   */
  function TryFrom(value: string): (r: Result<DataPoint, DataPointError>)
    ensures r.Ok? ==> Denotes(value, r.value)
  {
    if '.' in value then ParseWithDot(value)
    else if StartsWith(LowerAsciiText(value), "dpt-") then ParseWithDpt(value)
    else if StartsWith(LowerAsciiText(value), "dpst-") then ParseWithDpst(value)
    else if AllDigits(value) then ParseWithNumbers(value)
    else Err(DataPointError(GenericFormat))
  }

  // ------------------------------------------------------------ properties

  /** Two texts that folding leaves alone, and neither with a dot, side by side. */
  lemma PlainConcat(a: string, b: string)
    requires LowerAsciiText(a) == a && LowerAsciiText(b) == b && '.' !in a && '.' !in b
    ensures LowerAsciiText(a + b) == a + b && '.' !in a + b
  {
    LowerConcat(a, b);
  }

  /** A decimal number is left alone by folding and has no dot. */
  lemma PlainDecimal(n: nat)
    ensures LowerAsciiText(Decimal(n)) == Decimal(n) && '.' !in Decimal(n)
  {
    NoSeparatorInDecimal(n, '.');
    LowerIdentity(Decimal(n));
  }

  /** The displayed text has no upper-case letter and no dot. */
  lemma {:induction false} DisplayPlain(d: DataPoint)
    ensures LowerAsciiText(Display(d)) == Display(d) && '.' !in Display(d)
  {
    var a, b := Decimal(d.dpt), Decimal(d.dpst);
    PlainDecimal(d.dpt);
    PlainDecimal(d.dpst);
    if d.dpst == 0 {
      LowerIdentity("dpt-");
      PlainConcat("dpt-", a);
    } else {
      LowerIdentity("dpst-");
      LowerIdentity("-");
      PlainConcat("dpst-", a);
      PlainConcat("dpst-" + a, "-");
      PlainConcat("dpst-" + a + "-", b);
    }
  }

  /** The two numbers after `dpst-`. */
  lemma {:induction false} DpstParts(n: nat, m: nat)
    ensures Split(Decimal(n) + "-" + Decimal(m), '-') == [Decimal(n), Decimal(m)]
  {
    var a, b := Decimal(n), Decimal(m);
    assert a + "-" + b == a + ['-'] + b;
    NoSeparatorInDecimal(n, '-');
    NoSeparatorInDecimal(m, '-');
    SplitPrefix(a, '-', b);
    SplitNone(b, '-');
  }

  /** A text without a dot and without upper-case letters. */
  predicate Plain(t: string)
  {
    LowerAsciiText(t) == t && '.' !in t
  }

  /**
   * The generic format error comes only from the last branch: each parser
   * fails with its own format error or a range error.
   */
  lemma TryFromGeneric(value: string)
    ensures TryFrom(value) == Err(DataPointError(GenericFormat)) <==>
      && '.' !in value
      && !StartsWith(LowerAsciiText(value), "dpt-")
      && !StartsWith(LowerAsciiText(value), "dpst-")
      && !AllDigits(value)
  {
  }

  /** Every text of a datapoint is read as it. */
  lemma {:induction false} TryFromComplete(value: string, d: DataPoint)
    requires Denotes(value, d)
    ensures TryFrom(value) == Ok(d)
  {
    if DotForm(value, d) {
      DotComplete(value, d);
    } else if DptForm(value, d) {
      DptComplete(value, d);
    } else if DpstForm(value, d) {
      DpstComplete(value, d);
    } else {
      BareComplete(value, d);
    }
  }

  lemma DotComplete(value: string, d: DataPoint)
    requires DotForm(value, d)
    ensures TryFrom(value) == Ok(d)
  {
    assert Count(value, '.') == 1;
  }

  lemma {:induction false} DptComplete(value: string, d: DataPoint)
    requires DptForm(value, d)
    ensures TryFrom(value) == Ok(d)
  {
    var l := LowerAsciiText(value);
    assert l == l[..4] + l[4..];
    assert '.' !in l;
    NoDotBelowFolding(value);
    assert ParseWithDpt(value) == Ok(d);
  }

  lemma {:induction false} DpstComplete(value: string, d: DataPoint)
    requires DpstForm(value, d)
    ensures TryFrom(value) == Ok(d)
  {
    DpstNoDot(value);
    DpstParse(value, d);
    DpstDispatch(value);
  }

  /** A dot-free text with the `dpst-` prefix goes to `parse_with_dpst`. */
  lemma DpstDispatch(value: string)
    requires '.' !in value && StartsWith(LowerAsciiText(value), "dpst-")
    ensures TryFrom(value) == ParseWithDpst(value)
  {
    var l := LowerAsciiText(value);
    assert !StartsWith(l, "dpt-") by {
      assert l[..5][2] == 's';
      if |l| >= 4 { assert l[..4][2] == l[..5][2]; }
    }
  }

  lemma {:induction false} DpstParse(value: string, d: DataPoint)
    requires DpstForm(value, d)
    ensures ParseWithDpst(value) == Ok(d)
  {
    var l := LowerAsciiText(value);
    var parts := Split(l[5..], '-');
    assert Numbers(parts[0], parts[1]) == Ok(d);
  }

  lemma {:induction false} DpstNoDot(value: string)
    requires StartsWith(LowerAsciiText(value), "dpst-")
    requires var parts := Split(LowerAsciiText(value)[5..], '-');
      |parts| == 2 && AllDigits(parts[0]) && AllDigits(parts[1])
    ensures '.' !in value
  {
    var l := LowerAsciiText(value);
    NumbersNoDot(l[5..]);
    assert l == l[..5] + l[5..];
    assert '.' !in l[..5];
    NoDotBelowFolding(value);
  }

  /** Two digit runs around a dash hold no dot. */
  lemma {:induction false} NumbersNoDot(t: string)
    requires var parts := Split(t, '-'); |parts| == 2 && AllDigits(parts[0]) && AllDigits(parts[1])
    ensures '.' !in t
  {
    var parts := Split(t, '-');
    assert forall k :: 0 <= k < |parts| ==> AllDigits(parts[k]);
    SplitDigits(t, '-');
    assert forall i :: 0 <= i < |t| ==> t[i] != '.';
  }

  lemma {:induction false} BareComplete(value: string, d: DataPoint)
    requires BareForm(value, d)
    ensures TryFrom(value) == Ok(d)
  {
    LowerIdentity(value);
    assert IsDigit(value[0]);
    assert !StartsWith(value, "dpt-") by {
      if |value| >= 4 { assert value[..4][0] == value[0]; }
    }
    assert !StartsWith(value, "dpst-") by {
      if |value| >= 5 { assert value[..5][0] == value[0]; }
    }
    assert '.' !in value;
    assert ParseWithNumbers(value) == Ok(d);
  }

  /** A dot survives folding, so a folded text without one came from a text without one. */
  lemma NoDotBelowFolding(value: string)
    requires '.' !in LowerAsciiText(value)
    ensures '.' !in value
  {
    forall i | 0 <= i < |value| ensures value[i] != '.' {
      assert LowerAsciiText(value)[i] == LowerAscii(value[i]);
    }
  }

  /** `dpt-N` reads as (N, 0). */
  lemma {:induction false} DptText(n: uint16)
    ensures TryFrom("dpt-" + Decimal(n)) == Ok(DataPoint(n, 0))
  {
    var t := "dpt-" + Decimal(n);
    PlainDecimal(n);
    LowerIdentity("dpt-");
    PlainConcat("dpt-", Decimal(n));
    assert t[..4] == "dpt-" && t[4..] == Decimal(n);
    DecimalValue(n);
    assert DptForm(t, DataPoint(n, 0));
    TryFromComplete(t, DataPoint(n, 0));
  }

  /** `dpst-N-M` reads as (N, M). */
  lemma {:induction false} DpstText(n: uint16, m: uint16)
    ensures TryFrom("dpst-" + Decimal(n) + "-" + Decimal(m)) == Ok(DataPoint(n, m))
  {
    DpstTextForm(n, m);
    TryFromComplete("dpst-" + Decimal(n) + "-" + Decimal(m), DataPoint(n, m));
  }

  /** `dpst-N-M` is in the `dpst-#-#` form with numbers N and M. */
  lemma {:induction false} DpstTextForm(n: uint16, m: uint16)
    ensures DpstForm("dpst-" + Decimal(n) + "-" + Decimal(m), DataPoint(n, m))
  {
    var a, b := Decimal(n), Decimal(m);
    var t := "dpst-" + a + "-" + b;
    DpstPlain(n, m);
    var l := LowerAsciiText(t);
    assert StartsWith(l, "dpst-") by { assert t[..5] == "dpst-"; }
    assert l[5..] == a + "-" + b;
    DpstParts(n, m);
    var parts := Split(l[5..], '-');
    assert parts[0] == a && parts[1] == b;
    DecimalValue(n);
    DecimalValue(m);
    assert DpstPattern(t);
  }

  /** Folding leaves `dpst-N-M` alone. */
  lemma {:induction false} DpstPlain(n: nat, m: nat)
    ensures LowerAsciiText("dpst-" + Decimal(n) + "-" + Decimal(m)) == "dpst-" + Decimal(n) + "-" + Decimal(m)
  {
    var a, b := Decimal(n), Decimal(m);
    PlainDecimal(n);
    PlainDecimal(m);
    LowerIdentity("dpst-");
    LowerIdentity("-");
    PlainConcat("dpst-", a);
    PlainConcat("dpst-" + a, "-");
    PlainConcat("dpst-" + a + "-", b);
  }

  /** The reading the dispatcher picks for a displayed datapoint. */
  lemma {:induction false} DispatchDisplayed(d: DataPoint)
    ensures TryFrom(Display(d)) == (if d.dpst == 0 then ParseWithDpt(Display(d)) else ParseWithDpst(Display(d)))
  {
    var l := Display(d);
    DisplayPlain(d);
    if d.dpst != 0 {
      assert l[2] == 's';
      assert !StartsWith(l, "dpt-");
      assert StartsWith(l, "dpst-");
    } else {
      assert StartsWith(l, "dpt-");
    }
  }

  /** The text of a datapoint in upper case is read the same way: the prefixes ignore case. */
  lemma {:induction false} UpperCaseRoundTrip(d: DataPoint)
    ensures TryFrom(UpperAsciiText(Display(d))) == Ok(d)
  {
    var t := Display(d);
    var u := UpperAsciiText(t);
    DisplayPlain(d);
    LowerOfUpper(t);
    assert '.' !in u by {
      forall i | 0 <= i < |u| ensures u[i] != '.' {
        assert t[i] != '.';
      }
    }
    DispatchDisplayed(d);
  }

  /** `#.#` with numbers in range gives the two numbers; a main number out of range is refused first. */
  lemma {:induction false} DotNumbers(main: nat, sub: nat)
    ensures var r := TryFrom(Decimal(main) + "." + Decimal(sub));
      && (main <= 0xFFFF && sub <= 0xFFFF ==> r == Ok(DataPoint(main, sub)))
      && (main > 0xFFFF ==> r == Err(DataPointError(MainRange)))
      && (main <= 0xFFFF && sub > 0xFFFF ==> r == Err(DataPointError(SubRange)))
  {
    var a, b := Decimal(main), Decimal(sub);
    var s := a + "." + b;
    assert s == a + ['.'] + b;
    assert s[|a|] == '.';
    NoSeparatorInDecimal(main, '.');
    NoSeparatorInDecimal(sub, '.');
    SplitPrefix(a, '.', b);
    SplitNone(b, '.');
    DecimalValue(main);
    DecimalValue(sub);
    ParseDecimal(main, 0xFFFF);
    ParseDecimal(sub, 0xFFFF);
  }

  /** A bare number in range is the main number with sub number 0. */
  lemma {:induction false} BareNumber(n: nat)
    ensures TryFrom(Decimal(n)) == if n <= 0xFFFF then Ok(DataPoint(n, 0)) else Err(DataPointError(TypeRange))
  {
    var t := Decimal(n);
    NoSeparatorInDecimal(n, '.');
    LowerIdentity(t);
    assert IsDigit(t[0]);
    assert !StartsWith(t, "dpt-") by {
      if |t| >= 4 { assert t[..4][0] == t[0]; }
    }
    assert !StartsWith(t, "dpst-") by {
      if |t| >= 5 { assert t[..5][0] == t[0]; }
    }
    ParseDecimal(n, 0xFFFF);
  }

  /** The byte layout of the examples `4711.32109` and `dpst-1331-4719`. */
  lemma Examples()
    ensures AsBytes(DataPoint(4711, 32109)) == [0x12, 0x67, 0x7D, 0x6D]
    ensures AsBytes(DataPoint(1331, 4719)) == [0x05, 0x33, 0x12, 0x6F]
  {
    assert 4711 == 0x12 * 0x100 + 0x67 && 32109 == 0x7D * 0x100 + 0x6D;
    assert 1331 == 0x05 * 0x100 + 0x33 && 4719 == 0x12 * 0x100 + 0x6F;
  }
}
