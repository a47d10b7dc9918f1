// Decoding of the request fields that both request bodies share
// (protocol/helpers/ProtocolHelper.java).
module ProtocolHelper {
  import opened Bytes
  import opened Wrappers
  import opened Failures
  import opened Text
  import opened KnxCore
  import ArgumentParser

  /** parseGroupAddress: the big-endian word of two bytes. */
  function ParseGroupAddress(bytes: seq<uint8>): (ga: GroupAddress)
    requires |bytes| == 2
    ensures BigEndian(ga.raw) == bytes
  {
    GroupAddress(Word(bytes[0], bytes[1]))
  }

  /** The registry key of a datapoint subtype, `dpst-<main>-<sub>`. */
  function SubTypeKey(main: nat, sub: nat): (key: string)
    ensures StartsWith(key, "dpst-")
  {
    "dpst-" + Decimal(main) + "-" + Decimal(sub)
  }

  /** The registry key of a datapoint main type, `dpt-<main>`. */
  function MainTypeKey(main: nat): (key: string)
    ensures StartsWith(key, "dpt-")
  {
    "dpt-" + Decimal(main)
  }

  /**
   * parseDataPointType: main number in the first two bytes, subtype number in
   * the last two; the subtype entry if registered, else the main type's entry,
   * else the raw type.
   */
  function ParseDataPointType(registry: Registry, bytes: seq<uint8>): (t: DataPointType)
    requires |bytes| == 4
  {
    var main := Word(bytes[0], bytes[1]);
    var sub := Word(bytes[2], bytes[3]);
    match Lookup(registry, SubTypeKey(main, sub))
    case Ok(t) => t
    case Err(_) =>
      match Lookup(registry, MainTypeKey(main))
      case Ok(t) => t
      case Err(_) => Raw
  }

  /**
   * The resolution order: the subtype entry wins; without it the main type's
   * entry; with neither, and only then, the raw type.
   */
  lemma ParseDataPointTypeResolution(registry: Registry, bytes: seq<uint8>)
    requires |bytes| == 4 && WellFormed(registry)
    ensures var main, sub := Word(bytes[0], bytes[1]), Word(bytes[2], bytes[3]);
      && (SubTypeKey(main, sub) in registry ==> ParseDataPointType(registry, bytes) == registry[SubTypeKey(main, sub)])
      && (SubTypeKey(main, sub) !in registry && MainTypeKey(main) in registry
          ==> ParseDataPointType(registry, bytes) == registry[MainTypeKey(main)])
      && (ParseDataPointType(registry, bytes) == Raw
          <==> SubTypeKey(main, sub) !in registry && MainTypeKey(main) !in registry)
  {
  }

  /** Subtype keys name their numbers unambiguously: equal keys mean equal numbers. */
  lemma SubTypeKeyInjective(m1: nat, s1: nat, m2: nat, s2: nat)
    requires SubTypeKey(m1, s1) == SubTypeKey(m2, s2)
    ensures m1 == m2 && s1 == s2
  {
    NoSeparatorInDecimal(m1, '-');
    NoSeparatorInDecimal(m2, '-');
    NoSeparatorInDecimal(s1, '-');
    NoSeparatorInDecimal(s2, '-');
    assert '-' !in "dpst";
    SplitsSubTypeKey(m1, s1);
    SplitsSubTypeKey(m2, s2);
    DecimalInjective(m1, m2);
    DecimalInjective(s1, s2);
  }

  lemma SplitsSubTypeKey(m: nat, s: nat)
    requires '-' !in Decimal(m) && '-' !in Decimal(s)
    ensures Split(SubTypeKey(m, s), '-') == ["dpst", Decimal(m), Decimal(s)]
  {
    assert '-' !in "dpst";
    assert SubTypeKey(m, s) == "dpst" + ['-'] + Decimal(m) + ['-'] + Decimal(s);
    SplitThree("dpst", Decimal(m), Decimal(s), '-');
  }

  /** A subtype key is never a main-type key, so the two look-ups cannot collide. */
  lemma SubTypeKeyIsNotMainTypeKey(m: nat, s: nat, n: nat)
    ensures SubTypeKey(m, s) != MainTypeKey(n)
  {
    assert SubTypeKey(m, s)[2] == 's';
    assert MainTypeKey(n)[2] == 't';
  }

  /** parseArguments: no bytes give no arguments, otherwise the tokenizer's arguments. */
  function ParseArguments(bytes: seq<uint8>): (r: Result<seq<string>, Failure>)
    ensures |bytes| == 0 ==> r == Ok([])
    ensures r == ArgumentParser.Arguments(bytes)
  {
    if |bytes| == 0 then Ok([]) else ArgumentParser.Arguments(bytes)
  }
}
