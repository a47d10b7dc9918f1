// The gateway's tokenizer for the textual arguments of a write request
// (ArgumentParser.toList): the bytes are decoded as UTF-8 and split at
// whitespace, where double quotes group words and a backslash escapes the
// next character.
module ArgumentParser {
  import opened Bytes
  import opened Wrappers
  import opened Text
  import opened Failures
  import Utf8

  /** The loop variables of the tokenizer, between two characters. */
  datatype ScanState = ScanState(quote: bool, escaped: bool, token: string, args: seq<string>)

  const Start: ScanState := ScanState(false, false, "", [])

  /** At the end of input, a pending non-empty token becomes the last argument. */
  function Finish(st: ScanState): (args: seq<string>)
    ensures |st.token| > 0 ==> args == st.args + [st.token]
    ensures |st.token| == 0 ==> args == st.args
  {
    if |st.token| > 0 then st.args + [st.token] else st.args
  }

  /**
   * What one character does to the loop variables. `next` is the character
   * after it: inside a quote a backslash looks at it, and there is none when
   * the backslash is the last character, so that read fails.
   */
  function Step(ch: char, next: Option<char>, st: ScanState): Result<ScanState, Failure>
  {
    if IsJavaWhitespace(ch) then
      if st.escaped || st.quote then Ok(st.(token := st.token + [ch], escaped := false))
      else if |st.token| > 0 then Ok(st.(token := "", args := st.args + [st.token], escaped := false))
      else Ok(st.(escaped := false))
    else if ch == '\\' then
      if st.quote && next.None? then Err(IndexOutOfBounds)
      else if st.quote && next.value != '"' then Ok(st.(token := st.token + [ch], escaped := false))
      else if st.escaped then Ok(st.(token := st.token + [ch], escaped := false))
      else Ok(st.(escaped := true))
    else if ch == '"' then
      if st.escaped then Ok(st.(token := st.token + [ch], escaped := false))
      else Ok(st.(quote := !st.quote, escaped := false))
    else Ok(st.(token := st.token + [ch], escaped := false))
  }

  function Lookahead(s: string): Option<char>
  {
    if |s| > 1 then Some(s[1]) else None
  }

  /** The tokenizer over the remaining characters `s`. */
  function Scan(s: string, st: ScanState): Result<seq<string>, Failure>
    decreases |s|
  {
    if |s| == 0 then Ok(Finish(st))
    else
      match Step(s[0], Lookahead(s), st)
      case Ok(st') => Scan(s[1..], st')
      case Err(e) => Err(e)
  }

  /** The arguments in `bytes`; no bytes give no arguments. */
  function Arguments(bytes: seq<uint8>): Result<seq<string>, Failure>
  {
    if |bytes| == 0 then Ok([]) else Scan(Utf8.Decode(bytes), Start)
  }

  /** ArgumentParser.toList, the character loop itself. */
  method ToList(bytes: seq<uint8>) returns (r: Result<seq<string>, Failure>)
    ensures r == Arguments(bytes)
  {
    if |bytes| == 0 {
      return Ok([]);
    }
    var chars := Utf8.Decode(bytes);
    var args: seq<string> := [];
    var quote := false;
    var escaped := false;
    var sb: string := "";
    var i := 0;
    while i < |chars|
      invariant 0 <= i <= |chars|
      invariant Scan(chars, Start) == Scan(chars[i..], ScanState(quote, escaped, sb, args))
      decreases |chars| - i
    {
      var ch := chars[i];
      assert chars[i..][1..] == chars[i + 1..];
      if IsJavaWhitespace(ch) {
        if escaped || quote {
          sb := sb + [ch];
        } else if |sb| > 0 {
          args := args + [sb];
          sb := "";
        }
      } else if ch == '\\' {
        if quote && i + 1 >= |chars| {
          return Err(IndexOutOfBounds);
        } else if quote && chars[i + 1] != '"' {
          sb := sb + [ch];
        } else if escaped {
          sb := sb + [ch];
        } else {
          escaped := true;
          i := i + 1;
          continue;
        }
      } else if ch == '"' {
        if escaped {
          sb := sb + [ch];
        } else {
          quote := !quote;
        }
      } else {
        sb := sb + [ch];
      }
      escaped := false;
      i := i + 1;
    }
    if |sb| > 0 {
      args := args + [sb];
    }
    return Ok(args);
  }

  // ------------------------------------------------------------ properties

  predicate NoEmpty(args: seq<string>) { forall k :: 0 <= k < |args| ==> |args[k]| > 0 }

  /** The tokenizer never produces an empty argument. */
  lemma {:induction false} ScanNoEmpty(s: string, st: ScanState)
    requires NoEmpty(st.args)
    ensures Scan(s, st).Ok? ==> NoEmpty(Scan(s, st).value)
    decreases |s|
  {
    if |s| > 0 {
      var ch := s[0];
      if IsJavaWhitespace(ch) {
        if st.escaped || st.quote {
          ScanNoEmpty(s[1..], st.(token := st.token + [ch], escaped := false));
        } else if |st.token| > 0 {
          ScanNoEmpty(s[1..], st.(token := "", args := st.args + [st.token], escaped := false));
        } else {
          ScanNoEmpty(s[1..], st.(escaped := false));
        }
      } else if ch == '\\' {
        ScanNoEmpty(s[1..], st.(token := st.token + [ch], escaped := false));
        ScanNoEmpty(s[1..], st.(escaped := true));
      } else if ch == '"' {
        ScanNoEmpty(s[1..], st.(token := st.token + [ch], escaped := false));
        ScanNoEmpty(s[1..], st.(quote := !st.quote, escaped := false));
      } else {
        ScanNoEmpty(s[1..], st.(token := st.token + [ch], escaped := false));
      }
    }
  }

  lemma ArgumentsNoEmpty(bytes: seq<uint8>)
    ensures Arguments(bytes).Ok? ==> NoEmpty(Arguments(bytes).value)
  {
    if |bytes| > 0 {
      ScanNoEmpty(Utf8.Decode(bytes), Start);
    }
  }

  /** A character with no meaning to the tokenizer. */
  predicate Plain(c: char) { !IsJavaWhitespace(c) && c != '\\' && c != '"' }

  predicate AllPlain(w: string) { forall k :: 0 <= k < |w| ==> Plain(w[k]) }

  /** A character that may stand between quotes without an escape. */
  predicate Quotable(c: char) { c != '\\' && c != '"' }

  predicate AllQuotable(w: string) { forall k :: 0 <= k < |w| ==> Quotable(w[k]) }

  /** At the end of input the pending token is flushed. */
  lemma ScanEnd(st: ScanState)
    ensures Scan("", st) == Ok(Finish(st))
  {
  }

  /** Plain characters are copied into the pending token. */
  lemma {:induction false} ScanPlain(w: string, rest: string, st: ScanState)
    requires AllPlain(w) && !st.escaped
    ensures Scan(w + rest, st) == Scan(rest, st.(token := st.token + w))
    decreases |w|
  {
    if |w| == 0 {
      assert w + rest == rest;
      assert st.token + w == st.token;
    } else {
      var s := w + rest;
      assert s[0] == w[0] && s[1..] == w[1..] + rest;
      var st1 := st.(token := st.token + [w[0]], escaped := false);
      ScanPlain(w[1..], rest, st1);
      assert st1.token + w[1..] == st.token + w;
    }
  }

  /** Between quotes every character except `"` and `\` is copied, whitespace included. */
  lemma {:induction false} ScanQuotable(w: string, rest: string, st: ScanState)
    requires AllQuotable(w) && st.quote && !st.escaped
    ensures Scan(w + rest, st) == Scan(rest, st.(token := st.token + w))
    decreases |w|
  {
    if |w| == 0 {
      assert w + rest == rest;
      assert st.token + w == st.token;
    } else {
      var s := w + rest;
      assert s[0] == w[0] && s[1..] == w[1..] + rest;
      var st1 := st.(token := st.token + [w[0]], escaped := false);
      ScanQuotable(w[1..], rest, st1);
      assert st1.token + w[1..] == st.token + w;
    }
  }

  /** Outside quotes, whitespace with no pending token is skipped. */
  lemma {:induction false} ScanSkipsWhitespace(ws: string, rest: string, st: ScanState)
    requires forall k :: 0 <= k < |ws| ==> IsJavaWhitespace(ws[k])
    requires !st.quote && !st.escaped && |st.token| == 0
    ensures Scan(ws + rest, st) == Scan(rest, st)
    decreases |ws|
  {
    if |ws| == 0 {
      assert ws + rest == rest;
    } else {
      assert (ws + rest)[1..] == ws[1..] + rest;
      ScanSkipsWhitespace(ws[1..], rest, st);
    }
  }

  /** Outside quotes, whitespace ends the pending token. */
  lemma ScanSeparates(c: char, rest: string, st: ScanState)
    requires IsJavaWhitespace(c) && !st.quote && !st.escaped && |st.token| > 0
    ensures Scan([c] + rest, st) == Scan(rest, st.(token := "", args := st.args + [st.token]))
  {
    assert ([c] + rest)[1..] == rest;
  }

  /** A quoted text contributes its inner characters to the pending token. */
  lemma ScanQuoted(w: string, rest: string, st: ScanState)
    requires AllQuotable(w) && !st.quote && !st.escaped
    ensures Scan("\"" + w + "\"" + rest, st) == Scan(rest, st.(token := st.token + w))
  {
    var s := "\"" + w + "\"" + rest;
    assert s[0] == '"' && s[1..] == w + ("\"" + rest);
    var st1 := st.(quote := true, escaped := false);
    ScanQuotable(w, "\"" + rest, st1);
    var st2 := st1.(token := st.token + w);
    assert ("\"" + rest)[0] == '"' && ("\"" + rest)[1..] == rest;
    assert st2.(quote := false, escaped := false) == st.(token := st.token + w);
  }

  /** Outside quotes a backslash makes the next character literal, whatever it is. */
  lemma ScanEscapeOutside(c: char, rest: string, st: ScanState)
    requires !st.quote && !st.escaped
    ensures Scan(['\\', c] + rest, st) == Scan(rest, st.(token := st.token + [c]))
  {
    var s := ['\\', c] + rest;
    var st1 := st.(escaped := true);
    assert s[0] == '\\' && s[1..] == [c] + rest;
    assert Step('\\', Lookahead(s), st) == Ok(st1);
    assert Step(c, Lookahead([c] + rest), st1) == Ok(st.(token := st.token + [c]));
    assert ([c] + rest)[0] == c && ([c] + rest)[1..] == rest;
  }

  /** Inside quotes `\"` stands for a quote character. */
  lemma ScanEscapedQuoteInside(rest: string, st: ScanState)
    requires st.quote && !st.escaped
    ensures Scan(['\\', '"'] + rest, st) == Scan(rest, st.(token := st.token + ['"']))
  {
    var s := ['\\', '"'] + rest;
    assert s[1..] == ['"'] + rest;
    assert (['"'] + rest)[1..] == rest;
  }

  /** Inside quotes a backslash before anything but a quote is kept literally. */
  lemma ScanBackslashInside(c: char, rest: string, st: ScanState)
    requires st.quote && !st.escaped && c != '"'
    ensures Scan(['\\', c] + rest, st) == Scan([c] + rest, st.(token := st.token + ['\\']))
  {
    assert (['\\', c] + rest)[1..] == [c] + rest;
  }

  /** A backslash at the very end is dropped outside quotes and fails inside them. */
  lemma TrailingBackslash(st: ScanState)
    requires !st.escaped
    ensures Scan("\\", st).Err? <==> st.quote
    ensures !st.quote ==> Scan("\\", st) == Ok(Finish(st))
  {
  }

  /** Outside quotes an unescaped `"` opens a quote. */
  lemma OpenQuote(rest: string, st: ScanState)
    requires !st.quote && !st.escaped
    ensures Scan("\"" + rest, st) == Scan(rest, st.(quote := true))
  {
    var s := "\"" + rest;
    assert s[0] == '"' && s[1..] == rest;
    assert Step('"', Lookahead(s), st) == Ok(st.(quote := true));
  }

  /** An opening quote that is never closed still yields the text after it. */
  lemma UnclosedQuote(w: string)
    requires AllQuotable(w) && |w| > 0
    ensures Scan("\"" + w, Start) == Ok([w])
  {
    var st1 := Start.(quote := true);
    OpenQuote(w, Start);
    assert w + "" == w;
    ScanQuotable(w, "", st1);
    assert st1.token + w == w;
    ScanEnd(st1.(token := w));
    assert [] + [w] == [w];
  }

  /** A single word of plain characters is one argument. */
  lemma PlainWord(w: string)
    requires AllPlain(w) && |w| > 0
    ensures Scan(w, Start) == Ok([w])
  {
    PlainWordAfter(w, []);
    assert [] + [w] == [w];
  }

  /** A plain word after earlier arguments is appended to them. */
  lemma PlainWordAfter(w: string, args: seq<string>)
    requires AllPlain(w) && |w| > 0
    ensures Scan(w, Start.(args := args)) == Ok(args + [w])
  {
    assert w == w + "";
    var st := Start.(args := args);
    ScanPlain(w, "", st);
    assert st.token + w == w;
    ScanEnd(st.(token := w));
  }

  /** `a b` with plain words: the two words. */
  function SpaceJoined(words: seq<string>): string
  {
    if |words| == 0 then "" else if |words| == 1 then words[0] else words[0] + " " + SpaceJoined(words[1..])
  }

  /** Plain words joined by single spaces come back as those words. */
  lemma {:induction false} ScanSpaceJoined(words: seq<string>, args: seq<string>)
    requires forall k :: 0 <= k < |words| ==> AllPlain(words[k]) && |words[k]| > 0
    ensures Scan(SpaceJoined(words), Start.(args := args)) == Ok(args + words)
    decreases |words|
  {
    if |words| == 0 {
      assert args + words == args;
    } else if |words| == 1 {
      PlainWordAfter(words[0], args);
      assert args + words == args + [words[0]];
    } else {
      PlainWordThenSpace(words[0], SpaceJoined(words[1..]), args);
      assert SpaceJoined(words) == words[0] + " " + SpaceJoined(words[1..]);
      ScanSpaceJoined(words[1..], args + [words[0]]);
      assert args + [words[0]] + words[1..] == args + words;
    }
  }

  /** A plain word and a space: the word becomes an argument and scanning goes on after the space. */
  lemma PlainWordThenSpace(w: string, rest: string, args: seq<string>)
    requires AllPlain(w) && |w| > 0
    ensures Scan(w + " " + rest, Start.(args := args)) == Scan(rest, Start.(args := args + [w]))
  {
    assert w + " " + rest == w + (" " + rest);
    ScanPlain(w, " " + rest, Start.(args := args));
    assert "" + w == w;
    ScanSeparates(' ', rest, Start.(args := args, token := w));
  }

  /** Values each wrapped in double quotes and separated by single spaces. */
  function QuotedJoin(values: seq<string>): string
  {
    if |values| == 0 then ""
    else if |values| == 1 then "\"" + values[0] + "\""
    else "\"" + values[0] + "\"" + " " + QuotedJoin(values[1..])
  }

  /**
   * Non-empty values without quotes or backslashes, quoted and separated by
   * spaces, come back as exactly those values (whitespace inside them kept).
   */
  lemma {:induction false} ScanQuotedJoin(values: seq<string>, args: seq<string>)
    requires forall k :: 0 <= k < |values| ==> AllQuotable(values[k]) && |values[k]| > 0
    ensures Scan(QuotedJoin(values), Start.(args := args)) == Ok(args + values)
    decreases |values|
  {
    var st := Start.(args := args);
    if |values| == 0 {
      assert args + values == args;
    } else if |values| == 1 {
      QuotedLast(values[0], args);
      assert args + values == args + [values[0]];
    } else {
      var v := values[0];
      var rest := QuotedJoin(values[1..]);
      QuotedThenSpace(v, rest, args);
      ScanQuotedJoin(values[1..], args + [v]);
      assert args + [v] + values[1..] == args + values;
    }
  }

  lemma QuotedLast(v: string, args: seq<string>)
    requires AllQuotable(v) && |v| > 0
    ensures Scan(QuotedJoin([v]), Start.(args := args)) == Ok(args + [v])
  {
    var st := Start.(args := args);
    assert QuotedJoin([v]) == "\"" + v + "\"" + "";
    ScanQuoted(v, "", st);
    assert "" + v == v;
    ScanEnd(st.(token := v));
  }

  lemma QuotedThenSpace(v: string, rest: string, args: seq<string>)
    requires AllQuotable(v) && |v| > 0
    ensures Scan("\"" + v + "\"" + " " + rest, Start.(args := args)) == Scan(rest, Start.(args := args + [v]))
  {
    var st := Start.(args := args);
    assert "\"" + v + "\"" + " " + rest == "\"" + v + "\"" + (" " + rest);
    ScanQuoted(v, " " + rest, st);
    assert "" + v == v;
    ScanSeparates(' ', rest, st.(token := v));
  }

  /** An empty quoted value yields no argument at all. */
  lemma EmptyQuotedVanishes(rest: string, args: seq<string>)
    ensures Scan("\"\"" + " " + rest, Start.(args := args)) == Scan(rest, Start.(args := args))
  {
    var st := Start.(args := args);
    assert "\"\"" + " " + rest == "\"" + "" + "\"" + (" " + rest);
    ScanQuoted("", " " + rest, st);
    assert st.token + "" == "";
    assert (" " + rest)[1..] == rest;
  }
}
