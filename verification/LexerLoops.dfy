/** The index loops of the leaf scanners, each proved against the scanner it is. */
module LexerLoops {
  import opened Results
  import opened Bytes
  import opened Paths
  import opened ScanKernels
  import opened StringParser
  import opened StringWriter
  import opened Integers
  import opened Lexer
  import L = Lexer

  /** `scanQuoted`, from the opening quote. */
  method ScanQuoted(rest: string) returns (r: Result<nat, Fault>)
    requires rest != ""
    ensures r == L.ScanQuoted(rest)
  {
    hide StringValue, HasLineBreak, FirstStop;
    var quote := rest[0];
    if |rest| > 2 && rest[1] == quote && rest[2] == quote {
      return Err(Syntax(MultilineKey, 0));
    }
    var i := 1;
    while i < |rest|
      invariant 1 <= i <= |rest| && L.ScanQuoted(rest) == ScanQuotedFrom(rest, i)
    {
      var idx := FirstStop(rest[i..], QuoteStop(quote));
      if HasLineBreak(rest[i..i + idx]) || i + idx >= |rest| {
        return Err(Syntax(UnterminatedKey, 0));
      }
      if quote == '"' && rest[i + idx] == '\\' {
        if i + idx + 1 >= |rest| {
          return Err(Syntax(UnterminatedKey, 0));
        }
        i := i + idx + 2;
      } else {
        var end := i + idx + 1;
        var checked := ValidateStringValue(rest[..end]);
        return if checked.Err? then Err(BadString(checked.error)) else Ok(end);
      }
    }
    return Err(Syntax(UnterminatedKey, 0));
  }

  /** `countByteRun`. */
  method CountByteRun(s: string, c: char) returns (n: nat)
    ensures n == ByteRun(s, c)
  {
    n := 0;
    while n < |s| && s[n] == c
      invariant n <= |s| && ByteRun(s, c) == n + ByteRun(s[n..], c)
    {
      assert s[n..][1..] == s[n + 1..];
      n := n + 1;
    }
  }

  method CheckToken(rest: string, end: nat, ready: bool) returns (r: Result<StringToken, Fault>)
    requires 1 <= end <= |rest|
    ensures r == Checked(rest, end, ready)
  {
    var checked := ValidateStringValue(rest[..end]);
    return if checked.Err? then Err(BadString(checked.error)) else Ok(StringToken(end, ready));
  }

  /** The multiline loops of `scanString`; an escape clears the ready flag. */
  method ScanMultilineString(rest: string) returns (r: Result<StringToken, Fault>)
    requires |rest| >= 3 && IsQuote(rest[0])
    ensures r == ScanMultiline(rest, 3, true)
  {
    hide Checked, FirstStop, ByteRun, ScanMultiline, TripleDelimited;
    var end, escapeFree := 3, true;
    while end < |rest|
      invariant 3 <= end <= |rest| && ScanMultiline(rest, 3, true) == ScanMultiline(rest, end, escapeFree)
    {
      MultilineUnfold(rest, end, escapeFree);
      var stop := end + FirstStop(rest[end..], QuoteStop(rest[0]));
      if stop >= |rest| {
        return Err(Syntax(UnterminatedMultilineString, 0));
      }
      if rest[0] == '"' && rest[stop] == '\\' {
        if stop + 1 >= |rest| {
          return Err(Syntax(UnterminatedEscapeSequence, stop));
        }
        end, escapeFree := stop + 2, false;
      } else {
        assert rest[stop] == rest[0] by {
          assert rest[end..][stop - end] == rest[stop];
        }
        var run := CountByteRun(rest[stop..], rest[0]);
        QuoteRuns(rest, stop);
        if run >= 3 {
          r := CheckToken(rest, stop + (if run > 5 then 5 else run), escapeFree);
          return;
        }
        end := stop + run;
      }
    }
    MultilineUnfold(rest, end, escapeFree);
    return Err(Syntax(UnterminatedMultilineString, 0));
  }

  /** One stretch of a multiline string. */
  lemma MultilineUnfold(rest: string, end: nat, ready: bool)
    requires rest != "" && IsQuote(rest[0]) && 3 <= end <= |rest|
    ensures var stop := end + FirstStop(rest[end..], QuoteStop(rest[0]));
      ScanMultiline(rest, end, ready)
      == if stop >= |rest| then Err(Syntax(UnterminatedMultilineString, 0))
         else if rest[0] == '"' && rest[stop] == '\\' then
           if stop + 1 >= |rest| then Err(Syntax(UnterminatedEscapeSequence, stop))
           else ScanMultiline(rest, stop + 2, false)
         else
           var run := ByteRun(rest[stop..], rest[0]);
           if run >= 3 then Checked(rest, stop + (if run > 5 then 5 else run), ready)
           else ScanMultiline(rest, stop + run, ready)
  {
    hide Checked, FirstStop, ByteRun;
  }

  lemma QuoteRuns(rest: string, stop: nat)
    requires stop < |rest| && rest[stop] == rest[0]
    ensures ByteRun(rest[stop..], rest[0]) >= 1
  {
  }

  /** The single-line basic loop of `scanString`. */
  method ScanBasicToken(rest: string) returns (r: Result<StringToken, Fault>)
    requires rest != ""
    ensures r == ScanBasic(rest, 1, true)
  {
    hide Checked;
    var i, escapeFree := 1, true;
    while i < |rest|
      invariant 1 <= i <= |rest| && ScanBasic(rest, 1, true) == ScanBasic(rest, i, escapeFree)
    {
      var stop := i + FirstStop(rest[i..], BasicStringStrictStop);
      if stop >= |rest| || rest[stop] == '\n' || rest[stop] == '\r' {
        return Err(Syntax(UnterminatedString, 0));
      }
      if rest[stop] == '\\' {
        if stop + 1 >= |rest| {
          return Err(Syntax(UnterminatedString, 0));
        }
        i, escapeFree := stop + 2, false;
      } else if rest[stop] == '"' {
        if escapeFree {
          return Ok(StringToken(stop + 1, true));
        }
        r := CheckToken(rest, stop + 1, false);
        return;
      } else {
        return Err(BadString(ControlCharacter));
      }
    }
    return Err(Syntax(UnterminatedString, 0));
  }

  /** `scanString`. */
  method ScanString(rest: string) returns (r: Result<StringToken, Fault>)
    requires rest != "" && IsQuote(rest[0])
    ensures r == L.ScanString(rest)
  {
    hide ScanMultiline, ScanBasic, Checked;
    if OpensMultiline(rest, '"') || OpensMultiline(rest, '\'') {
      r := ScanMultilineString(rest);
    } else if rest[0] == '"' {
      r := ScanBasicToken(rest);
    } else {
      var n := FirstStop(rest[1..], LiteralStringStop);
      if HasLineBreak(rest[1..][..n]) || 1 + n >= |rest| {
        return Err(Syntax(UnterminatedString, 0));
      }
      r := CheckToken(rest, n + 2, true);
    }
  }

  /** `scanHeaderEnd`. */
  method ScanHeaderEnd(rest: string, start: nat, isArray: bool) returns (r: Result<nat, Fault>)
    requires start <= |rest|
    ensures r == HeaderEnd(rest, start, isArray)
  {
    hide L.ScanQuoted;
    var i := start;
    while i < |rest| && rest[i] != '\n' && rest[i] != '\r'
      invariant start <= i <= |rest| && HeaderEnd(rest, start, isArray) == HeaderEnd(rest, i, isArray)
    {
      if IsQuote(rest[i]) {
        var n := ScanQuoted(rest[i..]);
        if n.Err? {
          return Err(At(n.error, i));
        }
        i := i + n.value;
      } else if rest[i] == ']' && (!isArray || (i + 1 < |rest| && rest[i + 1] == ']')) {
        return Ok(i);
      } else {
        i := i + 1;
      }
    }
    return Err(Syntax(if isArray then UnterminatedArrayHeader else UnterminatedHeader, i));
  }

  /** `validateHeaderKey`: a segment, then a dot or the end, and round again. */
  method ValidateKey(rest: string, start: nat, end: nat) returns (r: Result<(), Fault>)
    requires start <= end <= |rest|
    ensures r == ValidateHeaderKey(rest, start, end, true)
  {
    hide L.ScanQuoted;
    var i, needSegment := start, true;
    while true
      invariant start <= i <= end
      invariant ValidateHeaderKey(rest, start, end, true) == ValidateHeaderKey(rest, i, end, needSegment)
      decreases end - i
    {
      if i < end && Blank(rest[i]) {
        i := i + 1;
      } else if i == end {
        return if needSegment then Err(Syntax(NoTableKey, end)) else Ok(());
      } else if !needSegment {
        if rest[i] != '.' {
          return Err(Syntax(UnexpectedInTableKey, i));
        }
        i, needSegment := i + 1, true;
      } else if IsQuote(rest[i]) {
        var n := ScanQuoted(rest[i..]);
        if n.Err? {
          return Err(At(n.error, i));
        }
        if i + n.value > end {
          return Err(Syntax(UnterminatedTableKey, i));
        }
        i, needSegment := i + n.value, false;
      } else {
        var n := FirstStop(rest[i..end], NotBareKeyByte);
        if n == 0 {
          return Err(Syntax(UnexpectedInTableKey, i));
        }
        i, needSegment := i + n, false;
      }
    }
  }

  /** The general scan of `scanKeyToken`, up to the byte that ends the key. */
  method ScanKeyEnd(rest: string) returns (r: Result<nat, Fault>)
    ensures r == KeyEnd(rest, 0)
  {
    hide L.ScanQuoted;
    var i := 0;
    while i < |rest| && rest[i] != '=' && rest[i] != '#' && rest[i] != '\n' && rest[i] != '\r'
      invariant 0 <= i <= |rest| && KeyEnd(rest, 0) == KeyEnd(rest, i)
    {
      if IsQuote(rest[i]) {
        var n := ScanQuoted(rest[i..]);
        if n.Err? {
          return Err(At(n.error, i));
        }
        i := i + n.value;
      } else {
        i := i + 1;
      }
    }
    return Ok(i);
  }

  /** Blanks at the end are taken off one by one. */
  method TrimRightBlanks(s: string) returns (t: string)
    ensures t == TrimRight(s, Blank)
  {
    t := s;
    while t != "" && Blank(t[|t| - 1])
      invariant TrimRight(s, Blank) == TrimRight(t, Blank)
      decreases |t|
    {
      t := t[..|t| - 1];
    }
  }

  /** `scanKeyToken` without the decoder's flags. */
  method ScanKey(rest: string, maxKeyLength: int) returns (r: Result<KeyToken, Fault>)
    requires rest != "" && !Blank(rest[0])
    ensures r == L.ScanKey(rest, maxKeyLength)
  {
    hide FirstStop, LeadingBlanks, KeyEnd, ParseDottedKey, TrimRight, BareKey;
    var n := FirstStop(rest, NotBareKeyByte);
    if n > 0 {
      var eq := n + LeadingBlanks(rest[n..]);
      if eq < |rest| && rest[eq] == '=' {
        return CheckedKey(n, n, eq + 1, maxKeyLength);
      }
    }
    r := ScanGeneralKey(rest, maxKeyLength);
  }

  method ScanGeneralKey(rest: string, maxKeyLength: int) returns (r: Result<KeyToken, Fault>)
    requires rest != "" && !Blank(rest[0]) && !BareKeyAssigned(rest)
    ensures r == L.ScanKey(rest, maxKeyLength)
  {
    hide FirstStop, LeadingBlanks, KeyEnd, ParseDottedKey, TrimRight, BareKey, BareKeyAssigned;
    var i :- ScanKeyEnd(rest);
    if i == 0 {
      return Err(Syntax(NoKey, 0));
    }
    var key := TrimRightBlanks(rest[..i]);
    if !BareKey(key) {
      var parsed := ParseKey(key);
      if parsed.Err? {
        return Err(BadKey(parsed.error));
      }
    }
    if |key| > maxKeyLength {
      return Err(Limit(MaxKeyLength, 0, i));
    }
    var eq := i + LeadingBlanks(rest[i..]);
    if eq >= |rest| || rest[eq] != '=' {
      return Err(Syntax(ExpectedEquals, eq));
    }
    return Ok(KeyToken(|key|, eq + 1));
  }

  /** Where the quote at the front of a key segment closes. */
  method FindQuoteClose(s: string) returns (end: nat)
    requires s != ""
    ensures end == QuoteClose(s, 1)
  {
    end := 1;
    while end < |s|
      invariant QuoteClose(s, 1) == QuoteClose(s, end)
    {
      if s[end] == '\\' && s[0] == '"' {
        end := end + 2;
      } else if s[end] == s[0] {
        return;
      } else {
        end := end + 1;
      }
    }
  }

  /** `parseDottedKey`. */
  method ParseKey(text: string) returns (r: Result<Path, KeyFault>)
    ensures r == ParseDottedKey(text)
  {
    hide StringValue;
    var raw := TrimSpace(text);
    var parts: Path := [];
    ghost var goal := Segments(raw);
    JoinedNothing(goal);
    while true
      invariant goal == Joined(parts, Segments(raw)) && (parts != [] ==> TrimLeft(raw, Blank) != "")
      decreases |raw|
    {
      raw := TrimLeft(raw, Blank);
      if raw == "" {
        break;
      }
      var segment;
      if IsQuote(raw[0]) {
        var end := FindQuoteClose(raw);
        if end >= |raw| {
          return Err(UnterminatedQuotedKey);
        }
        var v := StringParser.ParseStringValue(raw[..end + 1]);
        if v.Err? {
          return Err(BadQuotedKey(v.error));
        }
        segment, raw := v.value, raw[end + 1..];
      } else {
        var end := FirstStop(raw, SegmentEnd);
        if end == 0 {
          return Err(EmptySegment);
        }
        if !BareKey(raw[..end]) {
          return Err(UnexpectedInKey);
        }
        segment, raw := raw[..end], raw[end..];
      }
      ghost var before := parts;
      parts := parts + [segment];
      raw := TrimLeft(raw, Blank);
      if raw == "" {
        break;
      }
      if raw[0] != '.' {
        return Err(UnexpectedInKey);
      }
      raw := raw[1..];
      if TrimLeft(raw, Blank) == "" {
        return Err(EmptySegment);
      }
      JoinedOnce(before, segment, Segments(raw));
    }
    return if parts == [] then Err(EmptyKey) else Ok(parts);
  }

  /** The segments read so far in front of those still to come. */
  function Joined(parts: Path, rest: Result<Path, KeyFault>): Result<Path, KeyFault> {
    match rest
    case Ok(more) => Ok(parts + more)
    case Err(f) => Err(f)
  }

  lemma JoinedNothing(rest: Result<Path, KeyFault>)
    ensures Joined([], rest) == rest
  {
    if rest.Ok? {
      assert [] + rest.value == rest.value;
    }
  }

  lemma JoinedOnce(parts: Path, segment: Segment, rest: Result<Path, KeyFault>)
    ensures Joined(parts + [segment], rest)
         == match rest
            case Ok(more) => Joined(parts, Ok([segment] + more))
            case Err(f) => Err(f)
  {
    if rest.Ok? {
      assert parts + [segment] + rest.value == parts + ([segment] + rest.value);
    }
  }
}
