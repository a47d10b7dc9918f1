// UTF-8, the encoding both sides use for every text that crosses the wire:
// command-line values, message texts and the server's argument bytes.
module Utf8 {
  import opened Bytes

  const Replacement: char := 0xFFFD as char

  /** The UTF-8 form of one Unicode scalar value. */
  function EncodeChar(c: char): (r: seq<uint8>)
    ensures 1 <= |r| <= 4
    ensures |r| == 1 <==> (c as int) < 0x80
    ensures |r| == 1 ==> r[0] == c as int
  {
    var n := c as int;
    if n < 0x80 then [n]
    else if n < 0x800 then [0xC0 + n / 0x40, 0x80 + n % 0x40]
    else if n < 0x1_0000 then [0xE0 + n / 0x40 / 0x40, 0x80 + n / 0x40 % 0x40, 0x80 + n % 0x40]
    else [0xF0 + n / 0x40 / 0x40 / 0x40, 0x80 + n / 0x40 / 0x40 % 0x40, 0x80 + n / 0x40 % 0x40, 0x80 + n % 0x40]
  }

  /** Java `String.getBytes(UTF_8)` and Rust `str::as_bytes`. */
  function Encode(s: string): (r: seq<uint8>)
    ensures |r| >= |s|
  {
    if |s| == 0 then [] else EncodeChar(s[0]) + Encode(s[1..])
  }

  /** Number of continuation bytes a lead byte announces; 0 for a byte that cannot lead. */
  function TailLength(b0: uint8): (k: nat)
    ensures k <= 3
  {
    if 0xC2 <= b0 <= 0xDF then 1
    else if 0xE0 <= b0 <= 0xEF then 2
    else if 0xF0 <= b0 <= 0xF4 then 3
    else 0
  }

  /**
   * Whether `b` may stand at position `i` (1, 2 or 3) after lead byte `b0`:
   * the second byte's range excludes overlong forms, surrogates and values
   * above U+10FFFF.
   */
  predicate Continues(b0: uint8, i: nat, b: uint8)
  {
    var lo := if i == 1 && b0 == 0xE0 then 0xA0 else if i == 1 && b0 == 0xF0 then 0x90 else 0x80;
    var hi := if i == 1 && b0 == 0xED then 0x9F else if i == 1 && b0 == 0xF4 then 0x8F else 0xBF;
    lo <= b <= hi
  }

  /** How many of the announced continuation bytes are present and acceptable. */
  function ValidTail(bs: seq<uint8>): (k: nat)
    requires |bs| > 0
    ensures k <= TailLength(bs[0]) && k < |bs|
    ensures forall i :: 1 <= i <= k ==> Continues(bs[0], i, bs[i])
  {
    var need := TailLength(bs[0]);
    if need == 0 || |bs| < 2 || !Continues(bs[0], 1, bs[1]) then 0
    else if need == 1 || |bs| < 3 || !Continues(bs[0], 2, bs[2]) then 1
    else if need == 2 || |bs| < 4 || !Continues(bs[0], 3, bs[3]) then 2
    else 3
  }

  /** The scalar value of a complete, well-formed multi-byte sequence. */
  function CodePoint(bs: seq<uint8>): (c: char)
    requires |bs| > 0 && TailLength(bs[0]) > 0 && ValidTail(bs) == TailLength(bs[0])
  {
    var b0: int := bs[0];
    var b1: int := bs[1];
    if TailLength(bs[0]) == 1 then
      ((b0 - 0xC0) * 0x40 + (b1 - 0x80)) as char
    else if TailLength(bs[0]) == 2 then
      ((b0 - 0xE0) * 0x1000 + (b1 - 0x80) * 0x40 + (bs[2] as int - 0x80)) as char
    else
      ((b0 - 0xF0) * 0x4_0000 + (b1 - 0x80) * 0x1000 + (bs[2] as int - 0x80) * 0x40 + (bs[3] as int - 0x80)) as char
  }

  /**
   * Java `new String(bytes, UTF_8)`: well-formed sequences become their
   * scalar values, and each maximal ill-formed subpart becomes one U+FFFD.
   */
  function Decode(bs: seq<uint8>): (s: string)
    ensures |s| <= |bs|
    decreases |bs|
  {
    if |bs| == 0 then ""
    else if bs[0] < 0x80 then [bs[0] as char] + Decode(bs[1..])
    else if TailLength(bs[0]) == 0 then [Replacement] + Decode(bs[1..])
    else if ValidTail(bs) == TailLength(bs[0]) then
      [CodePoint(bs)] + Decode(bs[TailLength(bs[0]) + 1..])
    else [Replacement] + Decode(bs[ValidTail(bs) + 1..])
  }

  lemma {:induction false} EncodeConcat(a: string, b: string)
    ensures Encode(a + b) == Encode(a) + Encode(b)
    decreases |a|
  {
    if |a| == 0 {
      assert a + b == b;
    } else {
      assert (a + b)[0] == a[0] && (a + b)[1..] == a[1..] + b;
      EncodeConcat(a[1..], b);
    }
  }

  lemma DecodeTwo(c: char, rest: seq<uint8>)
    requires 0x80 <= c as int < 0x800
    ensures Decode(EncodeChar(c) + rest) == [c] + Decode(rest)
  {
    var bs := EncodeChar(c) + rest;
    var n := c as int;
    assert bs[0] == 0xC0 + n / 0x40 && bs[1] == 0x80 + n % 0x40;
    assert TailLength(bs[0]) == 1;
    assert ValidTail(bs) == 1;
    assert (n / 0x40) * 0x40 + n % 0x40 == n;
    assert CodePoint(bs) == c;
    assert bs[2..] == rest;
  }

  lemma DecodeThree(c: char, rest: seq<uint8>)
    requires 0x800 <= c as int < 0x1_0000
    ensures Decode(EncodeChar(c) + rest) == [c] + Decode(rest)
  {
    var bs := EncodeChar(c) + rest;
    var n := c as int;
    var m := n / 0x40;
    var x, y, z := m / 0x40, m % 0x40, n % 0x40;
    assert n == m * 0x40 + z && m == x * 0x40 + y;
    assert bs[0] == 0xE0 + x && bs[1] == 0x80 + y && bs[2] == 0x80 + z;
    assert x * 0x1000 + y * 0x40 + z == n;
    assert bs[0] == 0xE0 ==> bs[1] >= 0xA0;
    assert bs[0] == 0xED ==> bs[1] <= 0x9F;
    assert TailLength(bs[0]) == 2;
    assert ValidTail(bs) == 2;
    assert CodePoint(bs) == c;
    assert bs[3..] == rest;
  }

  lemma DecodeFour(c: char, rest: seq<uint8>)
    requires 0x1_0000 <= c as int
    ensures Decode(EncodeChar(c) + rest) == [c] + Decode(rest)
  {
    var bs := EncodeChar(c) + rest;
    var n := c as int;
    var m := n / 0x40;
    var m2 := m / 0x40;
    var w, x, y, z := m2 / 0x40, m2 % 0x40, m % 0x40, n % 0x40;
    assert n == m * 0x40 + z && m == m2 * 0x40 + y && m2 == w * 0x40 + x;
    assert n <= 0x10_FFFF;
    assert 0x400 <= m <= 0x43FF;
    assert 0x10 <= m2 <= 0x10F;
    assert bs[0] == 0xF0 + w && bs[1] == 0x80 + x && bs[2] == 0x80 + y && bs[3] == 0x80 + z;
    assert w * 0x4_0000 + x * 0x1000 + y * 0x40 + z == n;
    assert bs[0] == 0xF0 ==> bs[1] >= 0x90;
    assert bs[0] == 0xF4 ==> bs[1] <= 0x8F;
    assert TailLength(bs[0]) == 3;
    assert ValidTail(bs) == 3;
    assert CodePoint(bs) == c;
    assert bs[4..] == rest;
  }

  lemma DecodeChar(c: char, rest: seq<uint8>)
    ensures Decode(EncodeChar(c) + rest) == [c] + Decode(rest)
  {
    var n := c as int;
    if n < 0x80 {
      assert (EncodeChar(c) + rest)[1..] == rest;
    } else if n < 0x800 {
      DecodeTwo(c, rest);
    } else if n < 0x1_0000 {
      DecodeThree(c, rest);
    } else {
      DecodeFour(c, rest);
    }
  }

  /** Decoding undoes encoding: every text survives the trip over the wire. */
  lemma {:induction false} DecodeEncode(s: string)
    ensures Decode(Encode(s)) == s
    decreases |s|
  {
    if |s| > 0 {
      DecodeChar(s[0], Encode(s[1..]));
      DecodeEncode(s[1..]);
      assert [s[0]] + s[1..] == s;
    }
  }

  /** ASCII text encodes byte for byte. */
  lemma {:induction false} EncodeAscii(s: string)
    requires forall i :: 0 <= i < |s| ==> (s[i] as int) < 0x80
    ensures |Encode(s)| == |s|
    ensures forall i :: 0 <= i < |s| ==> Encode(s)[i] == s[i] as int
    decreases |s|
  {
    if |s| > 0 {
      EncodeAscii(s[1..]);
    }
  }
}
