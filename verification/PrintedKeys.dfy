/** Keys and headers the printer wrote, seen by the scanners: they are found in full and parse back to the path. */
module PrintedKeys {
  import opened Results
  import opened Bytes
  import opened Utf8
  import opened StringParser
  import opened StringWriter
  import opened Lexer
  import opened StringTokens

  /** `text` stands in `all` at `i`. */
  predicate Has(all: string, i: nat, text: string) {
    i + |text| <= |all| && all[i..i + |text|] == text
  }

  lemma HasParts(all: string, i: nat, a: string, b: string)
    requires Has(all, i, a + b)
    ensures Has(all, i, a) && Has(all, i + |a|, b)
  {
    assert (a + b)[..|a|] == a && (a + b)[|a|..] == b;
    assert all[i..i + |a|] == all[i..i + |a + b|][..|a|];
    assert all[i + |a|..i + |a + b|] == all[i..i + |a + b|][|a|..];
  }

  lemma HasChar(all: string, i: nat, text: string, k: nat)
    requires Has(all, i, text) && k < |text|
    ensures all[i + k] == text[k]
  {
    assert all[i..i + |text|][k] == all[i + k];
  }

  // ----- Quoted keys -----

  lemma QuotedStep(rest: string, i: nat)
    requires 1 <= i < |rest| && rest[0] == '"'
    ensures !BasicStringStrictStop(rest[i]) ==> ScanQuotedFrom(rest, i) == ScanQuotedFrom(rest, i + 1)
    ensures rest[i] == '\\' && i + 1 < |rest| ==> ScanQuotedFrom(rest, i) == ScanQuotedFrom(rest, i + 2)
    ensures rest[i] == '"' ==>
              ScanQuotedFrom(rest, i) == if StringValue(rest[..i + 1]).Ok? then Ok(i + 1)
                                         else Err(BadString(StringValue(rest[..i + 1]).error))
  {
    hide FirstStop, StringValue;
    FirstStopStep(rest, i, BasicStringStop);
    if !BasicStringStrictStop(rest[i]) {
      var n := FirstStop(rest[i + 1..], BasicStringStop);
      assert rest[i..i + (1 + n)] == [rest[i]] + rest[i + 1..i + 1 + n];
      LineBreakAfter(rest[i], rest[i + 1..i + 1 + n]);
    }
  }

  lemma LineBreakAfter(c: char, s: string)
    requires c != '\n' && c != '\r'
    ensures HasLineBreak([c] + s) == HasLineBreak(s)
  {
    if HasLineBreak(s) {
      var i :| 0 <= i < |s| && (s[i] == '\n' || s[i] == '\r');
      assert ([c] + s)[i + 1] == s[i];
    }
    if HasLineBreak([c] + s) {
      var i :| 0 <= i < |[c] + s| && (([c] + s)[i] == '\n' || ([c] + s)[i] == '\r');
      assert s[i - 1] == ([c] + s)[i];
    }
  }

  lemma {:induction false} QuotedOver(rest: string, i: nat, e: string)
    requires 1 <= i && rest != "" && rest[0] == '"' && Has(rest, i, e) && Covered(e)
    ensures ScanQuotedFrom(rest, i) == ScanQuotedFrom(rest, i + |e|)
    decreases |e|
  {
    hide ScanQuotedFrom;
    if e != "" {
      HasChar(rest, i, e, 0);
      QuotedStep(rest, i);
      var n := if e[0] == '\\' then 2 else 1;
      assert rest[i + n..i + n + |e[n..]|] == e[n..];
      QuotedOver(rest, i + n, e[n..]);
    }
  }

  lemma {:induction false} CloseOver(s: string, i: nat, e: string)
    requires s != "" && s[0] == '"' && Has(s, i, e) && Covered(e)
    ensures QuoteClose(s, i) == QuoteClose(s, i + |e|)
    decreases |e|
  {
    if e != "" {
      HasChar(s, i, e, 0);
      var n := if e[0] == '\\' then 2 else 1;
      assert s[i + n..i + n + |e[n..]|] == e[n..];
      CloseOver(s, i + n, e[n..]);
    }
  }

  /** A printed string is scanned whole as a quoted key, and its quotes are the ones that close it. */
  lemma QuoteIsQuotedKey(s: string, rest: string)
    requires Quote(s).Ok? && (rest != "" ==> rest[0] != '"')
    ensures var text := Quote(s).value;
      && |text| >= 2 && text[0] == '"' && ScanQuoted(text + rest) == Ok(|text|)
      && QuoteClose(text + rest, 1) == |text| - 1
  {
    hide StringValue, Escaped, Covered, ScanQuotedFrom, QuoteClose;
    var e, text := Escaped(s).value, Quote(s).value;
    var all := text + rest;
    QuoteRoundTrips(s);
    EscapedCovered(s);
    assert all[1..1 + |e|] == e && all[..|text|] == text && all[1 + |e|] == '"';
    QuotedOver(all, 1, e);
    QuotedStep(all, 1 + |e|);
    CloseOver(all, 1, e);
    CloseHere(all, 1 + |e|);
    QuoteOpensPlain(s, rest);
  }

  lemma CloseHere(s: string, i: nat)
    requires s != "" && i < |s| && s[i] == s[0] && s[0] == '"'
    ensures QuoteClose(s, i) == i
  {
  }

  // ----- Key segments -----

  lemma KeyIsBareOrQuoted(key: string)
    requires FormatKey(key).Ok?
    ensures var text := FormatKey(key).value;
      text != "" && if BareKey(key) then text == key else Quote(key) == Ok(text) && text[0] == '"' && text[|text| - 1] == '"'
  {
    if key == "" {
      assert Escaped("") == Ok("");
      assert "\"" + "" + "\"" == "\"\"";
    }
  }

  /** What may follow a printed key. */
  predicate EndsKey(rest: string) {
    rest == "" || (!BareKeyByte(rest[0]) && rest[0] != '"')
  }

  lemma BareRun(key: string, rest: string)
    requires BareKey(key) && EndsKey(rest)
    ensures FirstStop(key + rest, NotBareKeyByte) == |key|
  {
    var all := key + rest;
    forall i | 0 <= i < |key| ensures !NotBareKeyByte(all[i]) {
      assert all[i] == key[i];
    }
    FirstStopUnique(all, NotBareKeyByte, |key|);
  }

  lemma SegmentRun(key: string, rest: string)
    requires BareKey(key) && (rest == "" || SegmentEnd(rest[0]))
    ensures FirstStop(key + rest, SegmentEnd) == |key|
  {
    var all := key + rest;
    forall i | 0 <= i < |key| ensures !SegmentEnd(all[i]) {
      assert all[i] == key[i];
    }
    FirstStopUnique(all, SegmentEnd, |key|);
  }

  /** The first segment of a text that starts with a printed key is that key. */
  lemma SegmentReadsBack(key: string, rest: string)
    requires FormatKey(key).Ok? && (rest == "" || rest[0] == '.')
    ensures FirstSegment(FormatKey(key).value + rest) == Ok(SegmentAnd(key, rest))
  {
    hide Escaped, StringValue, QuoteClose;
    var text := FormatKey(key).value;
    var all := text + rest;
    KeyIsBareOrQuoted(key);
    assert all[..|text|] == text && all[|text|..] == rest;
    if BareKey(key) {
      SegmentRun(key, rest);
      assert all[0] == key[0];
    } else {
      QuoteIsQuotedKey(key, rest);
      QuoteRoundTrips(key);
    }
  }

  lemma {:induction false} TrimLeftNothing(s: string, trimmed: char -> bool)
    requires s == "" || !trimmed(s[0])
    ensures TrimLeft(s, trimmed) == s
  {
  }

  /** A printed path starts and ends with a byte no trimming takes away. */
  lemma {:induction false} PathEnds(path: seq<string>)
    requires path != [] && FormatPath(path).Ok?
    ensures var text := FormatPath(path).value;
      text != "" && !SpaceByte(text[0]) && !SpaceByte(text[|text| - 1]) && FormatKey(path[0]).Ok?
      && FormatKey(path[0]).value <= text
    decreases |path|
  {
    KeyIsBareOrQuoted(path[0]);
    if |path| > 1 {
      PathEnds(path[1..]);
    }
  }

  lemma {:induction false} PathSegments(path: seq<string>)
    requires path != [] && FormatPath(path).Ok?
    ensures Segments(FormatPath(path).value) == Ok(path)
    decreases |path|
  {
    hide FirstSegment, FormatKey;
    var text, key := FormatPath(path).value, FormatKey(path[0]).value;
    PathEnds(path);
    TrimLeftNothing(text, Blank);
    if |path| == 1 {
      assert key + "" == text;
      SegmentReadsBack(path[0], "");
      assert path == [path[0]];
    } else {
      var rest := FormatPath(path[1..]).value;
      assert text == key + ("." + rest);
      SegmentReadsBack(path[0], "." + rest);
      PathEnds(path[1..]);
      TrimLeftNothing("." + rest, Blank);
      TrimLeftNothing(rest, Blank);
      assert ("." + rest)[1..] == rest;
      PathSegments(path[1..]);
      assert [path[0]] + path[1..] == path;
    }
  }

  /** A printed path parses back to the path, as a header's key and as a dotted key. */
  lemma PathReadsBack(path: seq<string>)
    requires path != [] && FormatPath(path).Ok?
    ensures var text := FormatPath(path).value;
      TrimSpace(text) == text && ParseDottedKey(text) == Ok(path) && KeyPathOf(text) == Ok(path)
  {
    hide Segments, FormatKey;
    var text := FormatPath(path).value;
    PathEnds(path);
    PathSegments(path);
    assert TrimSpace(text) == text;
    if BareKey(text) {
      BarePath(path);
    }
  }

  lemma BarePath(path: seq<string>)
    requires path != [] && FormatPath(path).Ok? && BareKey(FormatPath(path).value)
    ensures path == [FormatPath(path).value]
  {
    hide Escaped;
    var text, key := FormatPath(path).value, FormatKey(path[0]).value;
    KeyIsBareOrQuoted(path[0]);
    if |path| > 1 {
      DottedIsNotBare(path);
    }
    assert text[0] == key[0];
  }

  lemma DottedIsNotBare(path: seq<string>)
    requires |path| > 1 && FormatPath(path).Ok?
    ensures !BareKey(FormatPath(path).value)
  {
    hide FormatKey;
    assert FormatPath(path).value[|FormatKey(path[0]).value|] == '.';
  }

  // ----- A key in front of its equals sign -----

  /** A printed key in front of an equals sign is one key token, and the value starts behind the sign. */
  lemma KeyTokenReadsBack(key: string, rest: string, maxKeyLength: int)
    requires FormatKey(key).Ok? && |FormatKey(key).value| <= maxKeyLength
    ensures var text := FormatKey(key).value;
      text != "" && !Blank((text + (" = " + rest))[0])
      && ScanKey(text + (" = " + rest), maxKeyLength) == Ok(KeyToken(|text|, |text| + 2))
  {
    hide Escaped, ParseDottedKey, ScanQuoted;
    var text, tail := FormatKey(key).value, " = " + rest;
    var all := text + tail;
    KeyIsBareOrQuoted(key);
    assert all[0] == text[0] && all[|text|] == ' ' && all[|text| + 1] == '=';
    assert all[|text|..] == tail && tail[1..][0] == '=' && tail[0] == ' ';
    assert LeadingBlanks(tail[1..]) == 0 && LeadingBlanks(tail) == 1;
    if BareKey(key) {
      BareRun(key, tail);
    } else {
      QuotedKeyToken(key, rest, maxKeyLength);
    }
  }

  lemma QuotedKeyToken(key: string, rest: string, maxKeyLength: int)
    requires FormatKey(key).Ok? && !BareKey(key) && |FormatKey(key).value| <= maxKeyLength
    ensures var text := FormatKey(key).value;
      text != "" && !Blank((text + (" = " + rest))[0])
      && ScanKey(text + (" = " + rest), maxKeyLength) == Ok(KeyToken(|text|, |text| + 2))
  {
    hide Escaped, ParseDottedKey, ScanQuoted, TrimRight, LeadingBlanks, FormatKey;
    var text, tail := FormatKey(key).value, " = " + rest;
    var all := text + tail;
    KeyIsBareOrQuoted(key);
    QuoteIsQuotedKey(key, tail);
    assert FirstStop(all, NotBareKeyByte) == 0 by {
      assert NotBareKeyByte(all[0]);
    }
    assert all[0..] == all && all[|text|] == ' ' && all[|text| + 1] == '=';
    assert KeyEnd(all, |text| + 1) == Ok(|text| + 1);
    assert KeyEnd(all, |text|) == Ok(|text| + 1);
    assert KeyEnd(all, 0) == Ok(|text| + 1);
    assert all[..|text| + 1] == text + " ";
    TrimRightBlank(text);
    assert all[|text| + 1..][0] == '=';
    assert LeadingBlanks(all[|text| + 1..]) == 0;
    assert FormatPath([key]) == Ok(text);
    PathReadsBack([key]);
  }

  lemma TrimRightBlank(text: string)
    requires text != "" && !Blank(text[|text| - 1])
    ensures TrimRight(text + " ", Blank) == text
  {
    assert (text + " ")[..|text + " "| - 1] == text;
  }

  // ----- Headers -----

  /** One ordinary byte of a header. */
  lemma HeaderStep(all: string, i: nat, isArray: bool)
    requires i < |all| && (BareKeyByte(all[i]) || all[i] == '.')
    ensures HeaderEnd(all, i, isArray) == HeaderEnd(all, i + 1, isArray)
  {
    hide ScanQuoted;
  }

  lemma {:induction false} HeaderOverBare(all: string, i: nat, key: string, isArray: bool)
    requires Has(all, i, key) && forall j :: 0 <= j < |key| ==> BareKeyByte(key[j])
    ensures HeaderEnd(all, i, isArray) == HeaderEnd(all, i + |key|, isArray)
    decreases |key|
  {
    hide HeaderEnd;
    if key != "" {
      HasChar(all, i, key, 0);
      HeaderStep(all, i, isArray);
      assert all[i + 1..i + 1 + |key[1..]|] == key[1..];
      HeaderOverBare(all, i + 1, key[1..], isArray);
    }
  }

  /** The byte behind a printed key in a header. */
  predicate KeyEndsAt(all: string, i: nat) {
    i < |all| && (all[i] == '.' || all[i] == ']')
  }

  lemma HeaderOverKey(all: string, i: nat, key: string, isArray: bool)
    requires FormatKey(key).Ok? && Has(all, i, FormatKey(key).value) && KeyEndsAt(all, i + |FormatKey(key).value|)
    ensures HeaderEnd(all, i, isArray) == HeaderEnd(all, i + |FormatKey(key).value|, isArray)
  {
    hide ScanQuoted, Escaped, FormatKey;
    var text := FormatKey(key).value;
    KeyIsBareOrQuoted(key);
    if BareKey(key) {
      hide HeaderEnd;
      HeaderOverBare(all, i, key, isArray);
    } else {
      var rest := all[i + |text|..];
      assert all[i..] == text + rest && rest[0] == all[i + |text|];
      QuoteIsQuotedKey(key, rest);
      assert all[i] == text[0];
    }
  }

  lemma {:induction false} HeaderOverPath(all: string, i: nat, path: seq<string>, isArray: bool)
    requires path != [] && FormatPath(path).Ok? && Has(all, i, FormatPath(path).value)
    requires i + |FormatPath(path).value| < |all| && all[i + |FormatPath(path).value|] == ']'
    ensures HeaderEnd(all, i, isArray) == HeaderEnd(all, i + |FormatPath(path).value|, isArray)
    decreases |path|
  {
    hide HeaderEnd, FormatKey;
    var text, key := FormatPath(path).value, FormatKey(path[0]).value;
    if |path| == 1 {
      HeaderOverKey(all, i, path[0], isArray);
    } else {
      var rest := FormatPath(path[1..]).value;
      assert text == key + ("." + rest);
      HasParts(all, i, key, "." + rest);
      HasParts(all, i + |key|, ".", rest);
      HasChar(all, i + |key|, ".", 0);
      HeaderOverKey(all, i, path[0], isArray);
      HeaderStep(all, i + |key|, isArray);
      HeaderOverPath(all, i + |key| + 1, path[1..], isArray);
    }
  }

  lemma HeaderCloses(all: string, i: nat, isArray: bool)
    requires i < |all| && all[i] == ']' && (isArray ==> i + 1 < |all| && all[i + 1] == ']')
    ensures HeaderEnd(all, i, isArray) == Ok(i)
  {
    hide ScanQuoted;
  }

  lemma ValidateKey(all: string, i: nat, end: nat, key: string)
    requires FormatKey(key).Ok? && Has(all, i, FormatKey(key).value) && end <= |all|
    requires KeyEndsAt(all, i + |FormatKey(key).value|) && i + |FormatKey(key).value| <= end
    ensures ValidateHeaderKey(all, i, end, true) == ValidateHeaderKey(all, i + |FormatKey(key).value|, end, false)
  {
    hide ScanQuoted, Escaped, FormatKey;
    var text := FormatKey(key).value;
    var rest := all[i + |text|..];
    KeyIsBareOrQuoted(key);
    assert all[i] == text[0];
    if BareKey(key) {
      assert all[i..end] == text + all[i + |text|..end];
      assert i + |text| < end ==> all[i + |text|..end][0] == all[i + |text|];
      BareRun(key, all[i + |text|..end]);
    } else {
      assert all[i..] == text + rest && rest[0] == all[i + |text|];
      QuoteIsQuotedKey(key, rest);
    }
  }

  lemma ValidateDot(all: string, i: nat, end: nat)
    requires i < end <= |all| && all[i] == '.'
    ensures ValidateHeaderKey(all, i, end, false) == ValidateHeaderKey(all, i + 1, end, true)
  {
    hide ScanQuoted;
  }

  lemma {:induction false} ValidatePath(all: string, i: nat, end: nat, path: seq<string>)
    requires path != [] && FormatPath(path).Ok? && Has(all, i, FormatPath(path).value)
    requires end == i + |FormatPath(path).value| < |all| && all[end] == ']'
    ensures ValidateHeaderKey(all, i, end, true) == Ok(())
    decreases |path|
  {
    hide FormatKey;
    var text, key := FormatPath(path).value, FormatKey(path[0]).value;
    if |path| == 1 {
      ValidateKey(all, i, end, path[0]);
    } else {
      hide ValidateHeaderKey;
      var rest := FormatPath(path[1..]).value;
      assert text == key + ("." + rest);
      HasParts(all, i, key, "." + rest);
      HasParts(all, i + |key|, ".", rest);
      HasChar(all, i + |key|, ".", 0);
      ValidateKey(all, i, end, path[0]);
      ValidateDot(all, i + |key|, end);
      ValidatePath(all, i + |key| + 1, end, path[1..]);
    }
  }

  /** A printed header is scanned up to its closing bracket, and its text is accepted. */
  lemma HeaderReadsBack(all: string, path: seq<string>, isArray: bool)
    requires path != [] && FormatPath(path).Ok?
    requires var text, width := FormatPath(path).value, if isArray then 2 else 1;
      Has(all, width, text) && width + |text| + width <= |all|
      && all[width + |text|] == ']' && (isArray ==> all[width + |text| + 1] == ']')
    ensures var text, width := FormatPath(path).value, if isArray then 2 else 1;
      && HeaderEnd(all, width, isArray) == Ok(width + |text|)
      && ValidateHeaderKey(all, width, width + |text|, true) == Ok(())
  {
    hide HeaderEnd, ValidateHeaderKey, FormatPath;
    var text, width := FormatPath(path).value, if isArray then 2 else 1;
    HeaderOverPath(all, width, path, isArray);
    HeaderCloses(all, width + |text|, isArray);
    ValidatePath(all, width, width + |text|, path);
  }
}
