// Value quoting of the current client protocol
// (client/src/protocol/v1/protocol.rs): each value's UTF-8 bytes between
// double quotes, a space between values, no terminator. The separator is
// decided by an 8-bit counter that the model lets wrap around.
module ClientProtocol {
  import opened Bytes
  import Utf8
  import ArgumentParser

  const Space: uint8 := 0x20
  const Quote: uint8 := 0x22

  /** One value between double quotes. */
  function Quoted(v: string): (r: seq<uint8>)
    ensures |r| == |Utf8.Encode(v)| + 2
  {
    [Quote] + Utf8.Encode(v) + [Quote]
  }

  /** What one value adds: the separating space when asked for, then the quoted value. */
  function Piece(v: string, separate: bool): (r: seq<uint8>)
    ensures |r| == |Utf8.Encode(v)| + 2 + (if separate then 1 else 0)
  {
    (if separate then [Space] else []) + Quoted(v)
  }

  /**
   * The bytes of `values` when `written` values have gone before: a space
   * goes before a value only while the 8-bit counter of written values,
   * `written % 0x100`, is not 0.
   */
  function QuotedFrom(values: seq<string>, written: nat): seq<uint8>
    decreases |values|
  {
    if |values| == 0 then []
    else Piece(values[0], written % 0x100 > 0) + QuotedFrom(values[1..], written + 1)
  }

  /** Appending bytes one at a time, as the source's `push` loops do. */
  method Append(ve: seq<uint8>, bytes: seq<uint8>) returns (r: seq<uint8>)
    ensures r == ve + bytes
  {
    r := ve;
    var j := 0;
    while j < |bytes|
      invariant 0 <= j <= |bytes|
      invariant r == ve + bytes[..j]
    {
      r := r + [bytes[j]];
      j := j + 1;
    }
    assert bytes[..j] == bytes;
  }

  /** Header and body glued, pushed byte by byte. */
  method Glue(header: seq<uint8>, body: seq<uint8>) returns (ve: seq<uint8>)
    ensures ve == header + body
  {
    ve := Append([], header);
    ve := Append(ve, body);
  }

  /** The pushes for one value: the separating space if asked for, the quotes and the value's bytes. */
  method PushValue(ve: seq<uint8>, v: string, separate: bool) returns (r: seq<uint8>)
    ensures r == ve + Piece(v, separate)
  {
    r := ve;
    if separate {
      r := r + [Space];
    }
    r := r + [Quote];
    r := Append(r, Utf8.Encode(v));
    r := r + [Quote];
  }

  /** `convert_values_to_utf8_bytes`. */
  method ConvertValuesToUtf8Bytes(values: seq<string>) returns (ve: seq<uint8>)
    ensures ve == QuotedFrom(values, 0)
  {
    ve := [];
    var count: uint8 := 0;
    var i := 0;
    while i < |values|
      invariant 0 <= i <= |values|
      invariant count == i % 0x100
      invariant ve + QuotedFrom(values[i..], i) == QuotedFrom(values, 0)
    {
      ghost var before := ve;
      ve := PushValue(ve, values[i], count > 0);
      QuotedFromStep(values, i, before, ve);
      CounterStep(i, count);
      count := (count + 1) % 0x100;
      i := i + 1;
    }
    assert values[i..] == [];
  }

  /** The 8-bit counter follows the number of values written. */
  lemma CounterStep(i: nat, count: uint8)
    requires count == i % 0x100
    ensures (count + 1) % 0x100 == (i + 1) % 0x100
  {
  }

  /** One turn of the loop: the next value, preceded by a space while the counter is not 0. */
  lemma QuotedFromStep(values: seq<string>, i: nat, before: seq<uint8>, after: seq<uint8>)
    requires i < |values| && after == before + Piece(values[i], i % 0x100 > 0)
    ensures after + QuotedFrom(values[i + 1..], i + 1) == before + QuotedFrom(values[i..], i)
  {
    assert values[i..][1..] == values[i + 1..];
  }

  // ------------------------------------------------------------ properties

  lemma EncodeQuoteChar()
    ensures Utf8.Encode("\"") == [Quote] && Utf8.Encode(" ") == [Space]
  {
  }

  /** A value between quote characters encodes to the value's bytes between quote bytes. */
  lemma EncodeQuoted(v: string)
    ensures Utf8.Encode("\"" + v + "\"") == Quoted(v)
  {
    EncodeQuoteChar();
    Utf8.EncodeConcat("\"", v);
    Utf8.EncodeConcat("\"" + v, "\"");
  }

  /** One space and then the rest of the text. */
  lemma EncodeSpaced(a: string, b: string)
    ensures Utf8.Encode(a + " " + b) == Utf8.Encode(a) + [Space] + Utf8.Encode(b)
  {
    EncodeQuoteChar();
    assert a + " " + b == a + (" " + b);
    Utf8.EncodeConcat(a, " " + b);
    Utf8.EncodeConcat(" ", b);
  }

  lemma Regroup(a: seq<uint8>, b: seq<uint8>, c: seq<uint8>, d: seq<uint8>)
    ensures a + b + (c + d) == a + (b + c + d)
  {
  }

  /** The quoted text of one value, in UTF-8. */
  lemma JoinOne(v: string)
    ensures Utf8.Encode(ArgumentParser.QuotedJoin([v])) == Quoted(v)
  {
    assert ArgumentParser.QuotedJoin([v]) == "\"" + v + "\"";
    EncodeQuoted(v);
  }

  /** The quoted text of several values: the first, a space, the rest. */
  lemma JoinCons(values: seq<string>)
    requires |values| > 1
    ensures Utf8.Encode(ArgumentParser.QuotedJoin(values))
         == Quoted(values[0]) + [Space] + Utf8.Encode(ArgumentParser.QuotedJoin(values[1..]))
  {
    var v := values[0];
    assert ArgumentParser.QuotedJoin(values) == "\"" + v + "\"" + " " + ArgumentParser.QuotedJoin(values[1..]);
    EncodeSpaced("\"" + v + "\"", ArgumentParser.QuotedJoin(values[1..]));
    EncodeQuoted(v);
  }

  /** The first of several values, then the rest already known as the joined text. */
  lemma JoinStep(values: seq<string>, written: nat)
    requires |values| > 1 && written + |values| <= 0x100
    requires QuotedFrom(values[1..], written + 1) == [Space] + Utf8.Encode(ArgumentParser.QuotedJoin(values[1..]))
    ensures QuotedFrom(values, written) == (if written > 0 then [Space] else []) + Utf8.Encode(ArgumentParser.QuotedJoin(values))
  {
    var sep: seq<uint8> := if written > 0 then [Space] else [];
    var e := Utf8.Encode(ArgumentParser.QuotedJoin(values[1..]));
    assert written % 0x100 == written;
    assert Piece(values[0], written > 0) == sep + Quoted(values[0]);
    JoinCons(values);
    calc {
      QuotedFrom(values, written);
      Piece(values[0], written > 0) + QuotedFrom(values[1..], written + 1);
      sep + Quoted(values[0]) + ([Space] + e);
      { Regroup(sep, Quoted(values[0]), [Space], e); }
      sep + (Quoted(values[0]) + [Space] + e);
    }
  }

  /** A single value, by itself. */
  lemma JoinLast(values: seq<string>, written: nat)
    requires |values| == 1 && written < 0x100
    ensures QuotedFrom(values, written) == (if written > 0 then [Space] else []) + Utf8.Encode(ArgumentParser.QuotedJoin(values))
  {
    assert written % 0x100 == written;
    assert values == [values[0]] && values[1..] == [];
    JoinOne(values[0]);
  }

  /**
   * While the counter does not reach 256, the bytes are the UTF-8 form of
   * the quoted values joined by single spaces.
   */
  lemma {:induction false} QuotedFromJoin(values: seq<string>, written: nat)
    requires |values| > 0 && written + |values| <= 0x100
    ensures QuotedFrom(values, written) == (if written > 0 then [Space] else []) + Utf8.Encode(ArgumentParser.QuotedJoin(values))
    decreases |values|
  {
    if |values| > 1 {
      QuotedFromJoin(values[1..], written + 1);
      JoinStep(values, written);
    } else {
      JoinLast(values, written);
    }
  }

  /** Up to 256 values are sent as their text `"v1" "v2" …` in UTF-8; no values give no bytes. */
  lemma ValuesText(values: seq<string>)
    requires |values| <= 0x100
    ensures QuotedFrom(values, 0) == Utf8.Encode(ArgumentParser.QuotedJoin(values))
  {
    if |values| > 0 {
      QuotedFromJoin(values, 0);
    }
  }

  /** The bytes of two runs of values, the count of written values carried over. */
  lemma {:induction false} QuotedFromConcat(a: seq<string>, b: seq<string>, written: nat)
    ensures QuotedFrom(a + b, written) == QuotedFrom(a, written) + QuotedFrom(b, written + |a|)
    decreases |a|
  {
    if |a| == 0 {
      assert a + b == b;
    } else {
      assert (a + b)[0] == a[0] && (a + b)[1..] == a[1..] + b;
      QuotedFromConcat(a[1..], b, written + 1);
    }
  }

  /**
   * The 257th value follows the 256th with no space between them: the
   * counter has wrapped to 0. (A debug build panics on that overflow instead.)
   */
  lemma SeparatorLostAfter256(values: seq<string>)
    requires |values| == 257
    ensures QuotedFrom(values, 0) == Utf8.Encode(ArgumentParser.QuotedJoin(values[..256])) + Quoted(values[256])
  {
    assert values == values[..256] + [values[256]];
    QuotedFromConcat(values[..256], [values[256]], 0);
    ValuesText(values[..256]);
    assert [values[256]][1..] == [];
  }

  /** The quoted values end to end: each value's bytes and its two quotes. */
  function QuotedWidth(values: seq<string>): nat
  {
    if |values| == 0 then 0 else |Utf8.Encode(values[0])| + 2 + QuotedWidth(values[1..])
  }

  /** After the first value, every value costs its quoted width and one space. */
  lemma {:induction false} QuotedFromLength(values: seq<string>, written: nat)
    requires written > 0 && written + |values| <= 0x100
    ensures |QuotedFrom(values, written)| == QuotedWidth(values) + |values|
    decreases |values|
  {
    if |values| > 0 {
      assert written % 0x100 == written;
      QuotedFromLength(values[1..], written + 1);
    }
  }

  /** Up to 256 values take their quoted width plus one space between each two. */
  lemma ValuesLength(values: seq<string>)
    requires 0 < |values| <= 0x100
    ensures |QuotedFrom(values, 0)| == QuotedWidth(values) + |values| - 1
  {
    QuotedFromLength(values[1..], 1);
  }

  /** The quoted forms of the unit tests' ASCII values. */
  lemma QuotedAscii()
    ensures Quoted("abc") == [0x22, 0x61, 0x62, 0x63, 0x22]
    ensures Quoted("123") == [0x22, 0x31, 0x32, 0x33, 0x22]
    ensures Quoted("$%&") == [0x22, 0x24, 0x25, 0x26, 0x22]
  {
    Utf8.EncodeAscii("abc");
    Utf8.EncodeAscii("123");
    Utf8.EncodeAscii("$%&");
  }

  /** The unit-test vector `abc`. */
  lemma ExampleOne()
    ensures QuotedFrom(["abc"], 0) == [0x22, 0x61, 0x62, 0x63, 0x22]
  {
    QuotedAscii();
    assert ["abc"][1..] == [];
  }
}
