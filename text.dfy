// Text helpers that both implementations rely on from their standard
// libraries: decimal rendering and parsing, the hexadecimal rendering used in
// error messages, splitting on a separator, ASCII case folding and Java's
// whitespace classification.
module Text {
  import opened Bytes
  import opened Wrappers

  // ---------------------------------------------------------------- digits

  predicate IsDigit(c: char) { '0' <= c <= '9' }

  predicate AllDigits(s: string) { forall i :: 0 <= i < |s| ==> IsDigit(s[i]) }

  function DigitChar(d: nat): (c: char)
    requires d < 10
    ensures IsDigit(c) && c as int - '0' as int == d
  {
    ('0' as int + d) as char
  }

  function DigitValue(c: char): (d: nat)
    requires IsDigit(c)
    ensures d < 10 && DigitChar(d) == c
  {
    c as int - '0' as int
  }

  /** Decimal rendering of a natural number (Java `Integer.toString`, Rust `Display`). */
  function Decimal(n: nat): (s: string)
    ensures |s| > 0 && AllDigits(s)
    ensures n < 10 <==> |s| == 1
    decreases n
  {
    if n < 10 then [DigitChar(n)] else Decimal(n / 10) + [DigitChar(n % 10)]
  }

  /** A decimal rendering contains no character other than digits. */
  lemma NoSeparatorInDecimal(n: nat, c: char)
    requires !IsDigit(c)
    ensures c !in Decimal(n)
  {
  }

  /** The value of a string of decimal digits, most significant first. */
  function DigitsValue(s: string): (v: nat)
    requires AllDigits(s)
    decreases |s|
  {
    if |s| == 0 then 0 else DigitsValue(s[..|s| - 1]) * 10 + DigitValue(s[|s| - 1])
  }

  lemma {:induction false} DecimalValue(n: nat)
    ensures DigitsValue(Decimal(n)) == n
    decreases n
  {
    if n >= 10 {
      var s := Decimal(n);
      assert s[..|s| - 1] == Decimal(n / 10);
      DecimalValue(n / 10);
    }
  }

  lemma {:induction false} DecimalInjective(m: nat, n: nat)
    requires Decimal(m) == Decimal(n)
    ensures m == n
  {
    DecimalValue(m);
    DecimalValue(n);
  }

  /**
   * Rust's `str::parse` for an unsigned integer type whose largest value is
   * `max`: an optional leading `+`, then at least one ASCII digit and nothing
   * else; leading zeros are accepted; a value above `max` is an overflow error.
   */
  function ParseUnsigned(s: string, max: nat): (r: Option<nat>)
    ensures r.Some? ==> r.value <= max
    ensures r.Some? ==> |s| > 0 && (IsDigit(s[0]) || s[0] == '+')
  {
    var digits := if |s| > 0 && s[0] == '+' then s[1..] else s;
    if |digits| == 0 || !AllDigits(digits) then None
    else if DigitsValue(digits) <= max then Some(DigitsValue(digits))
    else None
  }

  /** A non-empty run of digits: what a `(\d+)` capture matches. */
  predicate Number(s: string)
  {
    |s| > 0 && AllDigits(s)
  }

  /** `s` spells `n` in decimal, leading zeros allowed, with an optional `+` before the digits. */
  predicate Reads(s: string, n: nat)
  {
    (Number(s) && DigitsValue(s) == n) || (|s| > 1 && s[0] == '+' && Number(s[1..]) && DigitsValue(s[1..]) == n)
  }

  /** `str::parse` accepts exactly the texts that spell a number of at most `max`, and returns that number. */
  lemma ParseReads(s: string, max: nat)
    ensures ParseUnsigned(s, max).Some? ==> Reads(s, ParseUnsigned(s, max).value)
    ensures forall n: nat :: Reads(s, n) && n <= max ==> ParseUnsigned(s, max) == Some(n)
  {
    if |s| > 0 && s[0] == '+' {
      assert !IsDigit(s[0]);
    }
  }

  lemma ParseDecimal(n: nat, max: nat)
    ensures ParseUnsigned(Decimal(n), max) == (if n <= max then Some(n) else None)
  {
    DecimalValue(n);
  }

  // ------------------------------------------------------------------- hex

  function HexDigit(d: nat): (c: char)
    requires d < 16
  {
    if d < 10 then DigitChar(d) else ('A' as int + d - 10) as char
  }

  function Hex2(b: uint8): (s: string)
    ensures |s| == 2
  {
    [HexDigit(b / 16), HexDigit(b % 16)]
  }

  /** Each byte as ` XX`, the separator the hex rendering puts between bytes. */
  function SpacedHex(bs: seq<uint8>): (s: string)
    ensures |s| == 3 * |bs|
  {
    if |bs| == 0 then "" else " " + Hex2(bs[0]) + SpacedHex(bs[1..])
  }

  /**
   * The hexadecimal rendering the gateway puts into its messages:
   * `0x` and the bytes as upper-case pairs separated by single spaces, and the
   * empty text for no bytes (`0xFF 00 00`).
   */
  function FormatHex(bs: seq<uint8>): (s: string)
    ensures |bs| == 0 <==> |s| == 0
    ensures |bs| > 0 ==> |s| == 3 * |bs| + 1 && s[..2] == "0x"
  {
    if |bs| == 0 then "" else "0x" + Hex2(bs[0]) + SpacedHex(bs[1..])
  }

  // ------------------------------------------------------ splitting, joining

  /** Number of occurrences of `c` in `s` (Rust `s.matches(c).count()`). */
  function Count(s: string, c: char): (n: nat)
    ensures n <= |s|
    ensures n == 0 <==> c !in s
  {
    if |s| == 0 then 0 else (if s[0] == c then 1 else 0) + Count(s[1..], c)
  }

  lemma {:induction false} CountConcat(a: string, b: string, c: char)
    ensures Count(a + b, c) == Count(a, c) + Count(b, c)
    decreases |a|
  {
    if |a| > 0 {
      assert (a + b)[1..] == a[1..] + b;
      CountConcat(a[1..], b, c);
    } else {
      assert a + b == b;
    }
  }

  /** Rust `s.split(sep)`: the pieces between separators, empty ones included. */
  function Split(s: string, sep: char): (pieces: seq<string>)
    ensures |pieces| == Count(s, sep) + 1
    ensures forall i :: 0 <= i < |pieces| ==> sep !in pieces[i]
    decreases |s|
  {
    if |s| == 0 then [""]
    else if s[0] == sep then [""] + Split(s[1..], sep)
    else
      var rest := Split(s[1..], sep);
      [[s[0]] + rest[0]] + rest[1..]
  }

  lemma {:induction false} SplitNone(s: string, sep: char)
    requires sep !in s
    ensures Split(s, sep) == [s]
    decreases |s|
  {
    if |s| > 0 {
      assert sep !in s[1..];
      SplitNone(s[1..], sep);
      assert [s[0]] + s[1..] == s;
    }
  }

  lemma {:induction false} SplitPrefix(a: string, sep: char, b: string)
    requires sep !in a
    ensures Split(a + [sep] + b, sep) == [a] + Split(b, sep)
    decreases |a|
  {
    var s := a + [sep] + b;
    if |a| == 0 {
      assert s == [sep] + b;
      assert s[1..] == b;
    } else {
      assert s[0] == a[0] && s[0] != sep;
      assert s[1..] == a[1..] + [sep] + b;
      assert sep !in a[1..];
      SplitPrefix(a[1..], sep, b);
      var rest := Split(s[1..], sep);
      assert rest == [a[1..]] + Split(b, sep);
      assert rest[0] == a[1..] && rest[1..] == Split(b, sep);
      assert [a[0]] + a[1..] == a;
    }
  }

  /** A text whose pieces are all digits holds nothing but digits and separators. */
  lemma {:induction false} SplitDigits(s: string, sep: char)
    requires forall k :: 0 <= k < |Split(s, sep)| ==> AllDigits(Split(s, sep)[k])
    ensures forall i :: 0 <= i < |s| ==> s[i] == sep || IsDigit(s[i])
    decreases |s|
  {
    if |s| > 0 {
      var pieces := Split(s, sep);
      var rest := Split(s[1..], sep);
      if s[0] == sep {
        assert pieces == [""] + rest;
        forall k | 0 <= k < |rest| ensures AllDigits(rest[k]) {
          assert rest[k] == pieces[k + 1];
        }
      } else {
        assert pieces == [[s[0]] + rest[0]] + rest[1..];
        assert AllDigits(pieces[0]);
        assert IsDigit(pieces[0][0]);
        forall j | 0 <= j < |rest[0]| ensures IsDigit(rest[0][j]) {
          assert rest[0][j] == pieces[0][j + 1];
        }
        forall k | 1 <= k < |rest| ensures AllDigits(rest[k]) {
          assert rest[k] == pieces[k];
        }
      }
      SplitDigits(s[1..], sep);
      forall i | 1 <= i < |s| ensures s[i] == sep || IsDigit(s[i]) {
        assert s[i] == s[1..][i - 1];
      }
    }
  }

  /** The three parts of a text with two separators. */
  lemma {:induction false} SplitThree(a: string, b: string, c: string, sep: char)
    requires sep !in a && sep !in b && sep !in c
    ensures Split(a + [sep] + b + [sep] + c, sep) == [a, b, c]
  {
    assert a + [sep] + b + [sep] + c == a + [sep] + (b + [sep] + c);
    SplitPrefix(a, sep, b + [sep] + c);
    SplitPrefix(b, sep, c);
    SplitNone(c, sep);
  }

  /** Java's `Arrays.toString` of a string array: `[a, b, c]`, and `[]`. */
  function ArrayText(items: seq<string>): (s: string)
    ensures |s| >= 2 && s[0] == '[' && s[|s| - 1] == ']'
  {
    "[" + CommaJoined(items) + "]"
  }

  function CommaJoined(items: seq<string>): string
  {
    if |items| == 0 then ""
    else if |items| == 1 then items[0]
    else items[0] + ", " + CommaJoined(items[1..])
  }

  predicate StartsWith(s: string, prefix: string)
  {
    |prefix| <= |s| && s[..|prefix|] == prefix
  }

  // ----------------------------------------------------------- case folding

  function LowerAscii(c: char): (l: char)
    ensures !('A' <= l <= 'Z')
  {
    if 'A' <= c <= 'Z' then (c as int + 32) as char else c
  }

  function UpperAscii(c: char): (u: char)
    ensures !('a' <= u <= 'z')
  {
    if 'a' <= c <= 'z' then (c as int - 32) as char else c
  }

  /** Rust `str::to_ascii_lowercase`. */
  function LowerAsciiText(s: string): (l: string)
    ensures |l| == |s|
    ensures forall i :: 0 <= i < |s| ==> l[i] == LowerAscii(s[i])
  {
    if |s| == 0 then "" else [LowerAscii(s[0])] + LowerAsciiText(s[1..])
  }

  function UpperAsciiText(s: string): (u: string)
    ensures |u| == |s|
    ensures forall i :: 0 <= i < |s| ==> u[i] == UpperAscii(s[i])
  {
    if |s| == 0 then "" else [UpperAscii(s[0])] + UpperAsciiText(s[1..])
  }

  /** Folding the upper-case form of a text without upper-case letters gives the text back. */
  lemma LowerOfUpper(s: string)
    requires s == LowerAsciiText(s)
    ensures LowerAsciiText(UpperAsciiText(s)) == s
  {
  }

  lemma LowerConcat(a: string, b: string)
    ensures LowerAsciiText(a + b) == LowerAsciiText(a) + LowerAsciiText(b)
  {
  }

  /** A text without upper-case letters is its own folding. */
  lemma LowerIdentity(s: string)
    requires forall i :: 0 <= i < |s| ==> !('A' <= s[i] <= 'Z')
    ensures LowerAsciiText(s) == s
  {
  }

  // ------------------------------------------------------------- whitespace

  /**
   * Java `Character.isWhitespace`: the ASCII controls TAB..CR and FS..US, and
   * the Unicode space, line and paragraph separators except the no-break ones
   * (U+00A0, U+2007, U+202F).
   */
  predicate IsJavaWhitespace(c: char)
  {
    var n := c as int;
    (0x09 <= n <= 0x0D) || (0x1C <= n <= 0x20) || n == 0x1680
    || (0x2000 <= n <= 0x2006) || (0x2008 <= n <= 0x200A)
    || n == 0x2028 || n == 0x2029 || n == 0x205F || n == 0x3000
  }

  /** Java `String.isBlank`: empty or only whitespace. */
  predicate IsBlank(s: string)
  {
    forall i :: 0 <= i < |s| ==> IsJavaWhitespace(s[i])
  }
}
