// The mode of communication with the KNX Net/IP device (config/KnxMode.java),
// parsed case-insensitively from the configuration text.
module KnxMode {
  import opened Wrappers
  import opened Failures
  import opened Text

  datatype KnxMode = Tunneling | Routing

  /** getMode: the text of a mode. */
  function GetMode(m: KnxMode): (s: string)
    ensures s == LowerAsciiText(s)
  {
    match m
    case Tunneling => LowerIdentity("tunneling"); "tunneling"
    case Routing => LowerIdentity("routing"); "routing"
  }

  /** String.equalsIgnoreCase, with case folded on ASCII letters. */
  predicate EqualsIgnoreCase(a: string, b: string)
  {
    LowerAsciiText(a) == LowerAsciiText(b)
  }

  /**
   * KnxMode.of: the mode whose text equals the argument up to case; a missing
   * argument (null) matches none and is named `null` in the message.
   */
  function Of(mode: Option<string>): (r: Result<KnxMode, Failure>)
    ensures r.Ok? <==> mode.Some? && (EqualsIgnoreCase(mode.value, "tunneling") || EqualsIgnoreCase(mode.value, "routing"))
    ensures r.Ok? ==> EqualsIgnoreCase(mode.value, GetMode(r.value))
    ensures r.Err? ==> r.error == IllegalArgument("Mode is not supported: " + (if mode.Some? then mode.value else "null"))
  {
    match mode
    case None => Err(IllegalArgument("Mode is not supported: " + "null"))
    case Some(text) =>
      if EqualsIgnoreCase(GetMode(Tunneling), text) then Ok(Tunneling)
      else if EqualsIgnoreCase(GetMode(Routing), text) then Ok(Routing)
      else Err(IllegalArgument("Mode is not supported: " + text))
  }

  /** The two texts differ even up to case, so each names exactly one mode. */
  lemma ModesDistinct()
    ensures !EqualsIgnoreCase(GetMode(Tunneling), GetMode(Routing))
  {
    assert LowerAsciiText(GetMode(Tunneling))[0] == 't';
  }

  /** Parsing the text of a mode gives the mode back. */
  lemma OfGetMode(m: KnxMode)
    ensures Of(Some(GetMode(m))) == Ok(m)
  {
    ModesDistinct();
  }

  /** Parsing does not depend on case: the upper-case text of a mode names it too. */
  lemma OfIgnoresCase(m: KnxMode, text: string)
    requires EqualsIgnoreCase(text, GetMode(m))
    ensures Of(Some(text)) == Ok(m)
  {
    ModesDistinct();
  }

  /** The upper-case text of a mode parses to that mode. */
  lemma OfUpperCase(m: KnxMode)
    ensures Of(Some(UpperAsciiText(GetMode(m)))) == Ok(m)
  {
    LowerOfUpper(GetMode(m));
    OfIgnoresCase(m, UpperAsciiText(GetMode(m)));
  }
}
