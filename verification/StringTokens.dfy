/**
 Strings seen from the tokenizer: what the ready flag of a token promises, the two routes that bind a string, and the
 extent of a string the writer printed.
 */
module StringTokens {
  import opened Results
  import opened Bytes
  import opened Utf8
  import opened StringParser
  import opened StringWriter
  import opened Lexer

  // ----- The ready flag -----

  lemma {:induction false} ByteRunMeans(s: string, c: char)
    ensures forall i :: 0 <= i < ByteRun(s, c) ==> s[i] == c
    decreases |s|
  {
    if s != "" && s[0] == c {
      ByteRunMeans(s[1..], c);
      forall i | 0 <= i < ByteRun(s, c) ensures s[i] == c {
        assert i > 0 ==> s[i] == s[1..][i - 1];
      }
    }
  }

  /** No backslash between two places of a text. */
  predicate NoBackslash(s: string, from: nat, to: nat)
    requires from <= to <= |s|
  {
    forall i :: from <= i < to ==> s[i] != '\\'
  }

  /** The body of a text between its opening and closing three quotes, once both are known to be there. */
  lemma MultilineReady(raw: string, q: char)
    requires |raw| >= 6 && IsQuote(q) && TripleDelimited(raw, q) && StringValue(raw).Ok?
    requires q == '"' ==> NoBackslash(raw, 3, |raw| - 3)
    ensures StringValue(raw) == Ok(ReadyStringBody(raw))
  {
    var inner := raw[3..|raw| - 3];
    var body := TrimInitialNewline(inner);
    if q == '"' {
      assert forall i :: 0 <= i < |inner| ==> inner[i] == raw[3 + i];
      assert '\\' !in inner && '\\' !in body;
      UnescapePlain(body, true);
    }
  }

  /** A multiline token closes with three quotes, has a value, and is ready only without escapes. */
  predicate ClosedMultiline(rest: string, t: StringToken) {
    && 6 <= t.length <= |rest| && TripleDelimited(rest[..t.length], rest[0]) && StringValue(rest[..t.length]).Ok?
    && (t.ready && rest[0] == '"' ==> NoBackslash(rest, 3, t.length - 3))
  }

  lemma {:induction false} MultilineScanned(rest: string, end: nat, ready: bool)
    requires |rest| >= 3 && OpensMultiline(rest, rest[0]) && IsQuote(rest[0]) && 3 <= end <= |rest|
    requires ScanMultiline(rest, end, ready).Ok?
    requires ready && rest[0] == '"' ==> NoBackslash(rest, 3, end)
    ensures ClosedMultiline(rest, ScanMultiline(rest, end, ready).value)
    decreases |rest| - end
  {
    hide StringValue, FirstStop, ByteRun, TripleDelimited, ClosedMultiline, NoBackslash, OpensMultiline, BasicStringStop;
    var stop := end + FirstStop(rest[end..], QuoteStop(rest[0]));
    if rest[0] == '"' && rest[stop] == '\\' {
      MultilineScanned(rest, stop + 2, false);
    } else {
      var run := ByteRun(rest[stop..], rest[0]);
      QuotesFrom(rest, end, stop, ready);
      if run >= 3 {
        ClosesTriple(rest, stop, if run > 5 then 5 else run, ready);
      } else {
        MultilineScanned(rest, stop + run, ready);
      }
    }
  }

  /** At a quote that is not escaped, everything up to the end of its run is free of escapes if what was read is. */
  lemma QuotesFrom(rest: string, end: nat, stop: nat, ready: bool)
    requires rest != "" && IsQuote(rest[0]) && 3 <= end <= stop < |rest|
    requires stop == end + FirstStop(rest[end..], QuoteStop(rest[0])) && (rest[0] == '"' ==> rest[stop] != '\\')
    requires ready && rest[0] == '"' ==> NoBackslash(rest, 3, end)
    ensures var run := ByteRun(rest[stop..], rest[0]);
      && run >= 1 && (forall i :: stop <= i < stop + run ==> rest[i] == rest[0])
      && (ready && rest[0] == '"' ==> NoBackslash(rest, 3, stop) && NoBackslash(rest, 3, stop + run))
  {
    hide FirstStop;
    assert rest[end..][stop - end] == rest[stop];
    ByteRunMeans(rest[stop..], rest[0]);
    assert forall i :: stop <= i < stop + ByteRun(rest[stop..], rest[0]) ==> rest[i] == rest[stop..][i - stop];
    assert forall i :: end <= i < stop ==> rest[i] == rest[end..][i - end];
  }

  lemma ClosesTriple(rest: string, stop: nat, run: nat, ready: bool)
    requires |rest| >= 3 && OpensMultiline(rest, rest[0]) && 3 <= stop && 3 <= run && stop + run <= |rest|
    requires forall i :: stop <= i < stop + run ==> rest[i] == rest[0]
    requires ready && rest[0] == '"' ==> NoBackslash(rest, 3, stop)
    requires Checked(rest, stop + run, ready).Ok?
    ensures ClosedMultiline(rest, Checked(rest, stop + run, ready).value)
  {
    hide StringValue;
  }

  lemma {:induction false} BasicScanned(rest: string, i: nat, escapeFree: bool)
    requires rest != "" && rest[0] == '"' && !OpensMultiline(rest, '"') && 1 <= i <= |rest|
    requires ScanBasic(rest, i, escapeFree).Ok?
    requires escapeFree ==> forall k :: 1 <= k < i ==> !BasicStringStrictStop(rest[k])
    ensures var t := ScanBasic(rest, i, escapeFree).value;
      && 2 <= t.length <= |rest| && rest[t.length - 1] == '"'
      && (t.ready ==> forall k :: 1 <= k < t.length - 1 ==> !BasicStringStrictStop(rest[k]))
      && (!t.ready ==> StringValue(rest[..t.length]).Ok?)
    decreases |rest| - i
  {
    hide StringValue, FirstStop, OpensMultiline;
    var stop := i + FirstStop(rest[i..], BasicStringStrictStop);
    assert forall k :: i <= k < stop ==> rest[k] == rest[i..][k - i];
    if rest[stop] == '\\' {
      BasicScanned(rest, stop + 2, false);
    }
  }

  /** A body of bytes that need no handling is what the token stands for. */
  lemma PlainBody(raw: string)
    requires |raw| >= 2 && raw[0] == '"' && raw[|raw| - 1] == '"'
    requires forall k :: 1 <= k < |raw| - 1 ==> !BasicStringStrictStop(raw[k])
    ensures StringValue(raw) == Ok(ReadyStringBody(raw))
  {
    var body := raw[1..|raw| - 1];
    PlainRun(body, |body|);
    assert body[..|body|] == body && body[|body|..] == "" && body + "" == body;
    if |raw| >= 6 {
      assert raw[1] != '"';
    }
  }

  lemma LiteralReady(raw: string)
    requires |raw| >= 2 && raw[0] == '\'' && raw[|raw| - 1] == '\'' && !OpensMultiline(raw, '\'') && StringValue(raw).Ok?
    ensures StringValue(raw) == Ok(ReadyStringBody(raw))
  {
  }

  /** A string token has a value, and when it is flagged ready that value is its body with the quotes stripped. */
  lemma ReadyFlagIsSound(rest: string)
    requires rest != "" && IsQuote(rest[0]) && ScanString(rest).Ok?
    ensures var t := ScanString(rest).value;
      var raw := rest[..t.length];
      StringValue(raw).Ok? && (t.ready ==> StringValue(raw) == Ok(ReadyStringBody(raw)))
  {
    hide StringValue, ReadyStringBody, ScanMultiline, ScanBasic, Unescape;
    var t := ScanString(rest).value;
    var raw := rest[..t.length];
    if OpensMultiline(rest, rest[0]) {
      MultilineScanned(rest, 3, true);
      if t.ready {
        MultilineReady(raw, rest[0]);
      }
    } else if rest[0] == '"' {
      BasicScanned(rest, 1, true);
      if t.ready {
        PlainBody(raw);
      }
    } else {
      LiteralReady(raw);
    }
  }

  /**
   `directStringValue`. `aliased` tells whether the decoder can hand out a slice of its buffer instead of a copy: the
   string is the same either way.
   */
  method DirectStringValue(raw: string, ready: bool, copyStrings: bool, aliased: bool)
    returns (r: Result<string, StringFault>)
    requires ready ==> StringValue(raw) == Ok(ReadyStringBody(raw))
    ensures r == StringValue(raw)
  {
    hide Unescape;
    if copyStrings {
      r := ParseStringValue(raw);
      return;
    }
    if ready {
      return Ok(ReadyStringBody(raw));
    }
    var body :- BodyOf(raw);
    var multiline := body.form.MultilineLiteral? || body.form.MultilineBasic?;
    if body.form.Literal? || body.form.MultilineLiteral? {
      var _ :- ValidateStringControls(body.text, multiline);
    } else if '\\' in body.text {
      r := ParseStringValue(raw);
      return;
    } else {
      UnescapePlain(body.text, multiline);
      var _ :- ScanBasicStringBody(body.text, multiline, false);
    }
    if aliased {
      return Ok(body.text);
    }
    r := ParseStringValue(raw);
  }

  // ----- The extent of a printed string -----

  /** A run of ordinary bytes and of backslashes that each cover the byte after them. */
  predicate Covered(e: string)
    decreases |e|
  {
    e == ""
    || (if e[0] == '\\' then |e| >= 2 && Covered(e[2..]) else !BasicStringStrictStop(e[0]) && Covered(e[1..]))
  }

  lemma {:induction false} CoveredConcat(a: string, b: string)
    requires Covered(a) && Covered(b)
    ensures Covered(a + b)
    decreases |a|
  {
    if a == "" {
      assert a + b == b;
    } else if a[0] == '\\' {
      CoveredConcat(a[2..], b);
      assert (a + b)[2..] == a[2..] + b;
    } else {
      CoveredConcat(a[1..], b);
      assert (a + b)[1..] == a[1..] + b;
    }
  }

  lemma {:induction false} PlainCovered(e: string)
    requires forall i :: 0 <= i < |e| ==> !BasicStringStrictStop(e[i])
    ensures Covered(e)
    decreases |e|
  {
    if e != "" {
      PlainCovered(e[1..]);
    }
  }

  lemma UnicodeEscapeCovered(r: nat)
    requires r < 0x100
    ensures Covered(UnicodeEscape(r))
  {
    var e := UnicodeEscape(r);
    HexUpperReads(r / 16);
    HexUpperReads(r % 16);
    PlainCovered(e[2..]);
  }

  lemma UnitCovered(s: string)
    requires s != "" && EscapedUnit(s).Ok?
    ensures Covered(EscapedUnit(s).value.text)
  {
    var u, c := EscapedUnit(s).value, s[0];
    if Printable(c) {
      assert NeedsBackslash(c) ==> u.text[2..] == "";
      assert !NeedsBackslash(c) ==> u.text[1..] == "";
    } else if c as int < 0x80 {
      if ControlEscape(c) == UnicodeEscape(c as int) {
        UnicodeEscapeCovered(c as int);
      } else {
        assert |u.text| == 2 && u.text[2..] == "";
      }
    } else {
      HighUnitCovered(s);
    }
  }

  lemma HighUnitCovered(s: string)
    requires s != "" && s[0] as int >= 0x80 && EscapedUnit(s).Ok?
    ensures Covered(EscapedUnit(s).value.text)
  {
    var u, d := EscapedUnit(s).value, DecodeRune(s);
    assert s[0..d.size] == s[..d.size];
    if d.rune <= 0x9f {
      CharacterIsEncoded(s[..d.size]);
      UnicodeEscapeCovered(d.rune);
    } else {
      assert forall i :: 0 <= i < |u.text| ==> u.text[i] == s[i] && s[i] as int >= 0x80;
      PlainCovered(u.text);
    }
  }

  lemma {:induction false} EscapedCovered(s: string)
    requires Escaped(s).Ok?
    ensures Covered(Escaped(s).value)
    decreases |s|
  {
    hide EscapedUnit, Covered;
    if s == "" {
      assert Covered("") by {
        PlainCovered("");
      }
    } else {
      var u := EscapedUnit(s).value;
      UnitCovered(s);
      EscapedCovered(s[u.size..]);
      CoveredConcat(u.text, Escaped(s[u.size..]).value);
    }
  }

  lemma FirstStopStep(rest: string, i: nat, stop: char -> bool)
    requires i < |rest|
    ensures FirstStop(rest[i..], stop) == if stop(rest[i]) then 0 else 1 + FirstStop(rest[i + 1..], stop)
  {
    assert rest[i..][1..] == rest[i + 1..];
  }

  lemma ScanBasicStep(rest: string, i: nat, escapeFree: bool)
    requires rest != "" && 1 <= i < |rest|
    ensures !BasicStringStrictStop(rest[i]) ==> ScanBasic(rest, i, escapeFree) == ScanBasic(rest, i + 1, escapeFree)
    ensures rest[i] == '\\' && i + 1 < |rest| ==> ScanBasic(rest, i, escapeFree) == ScanBasic(rest, i + 2, false)
  {
    hide FirstStop, Checked;
    FirstStopStep(rest, i, BasicStringStrictStop);
  }

  lemma {:induction false} ScanBasicOver(rest: string, i: nat, e: string, escapeFree: bool)
    requires rest != "" && 1 <= i && i + |e| <= |rest| && rest[i..i + |e|] == e && Covered(e)
    ensures ScanBasic(rest, i, escapeFree) == ScanBasic(rest, i + |e|, escapeFree && '\\' !in e)
    decreases |e|
  {
    hide ScanBasic;
    if e != "" {
      assert e[0] == rest[i];
      ScanBasicStep(rest, i, escapeFree);
      var n := if e[0] == '\\' then 2 else 1;
      assert rest[i + n..i + n + |e[n..]|] == e[n..];
      ScanBasicOver(rest, i + n, e[n..], escapeFree && n == 1);
      assert e == e[..n] + e[n..];
    }
  }

  lemma ScanBasicCloses(rest: string, i: nat, escapeFree: bool)
    requires 1 <= i < |rest| && rest[i] == '"'
    ensures ScanBasic(rest, i, escapeFree)
         == if escapeFree then Ok(StringToken(i + 1, true)) else Checked(rest, i + 1, false)
  {
  }

  /** The scanner takes a printed string for exactly what was printed, unless another quote follows it. */
  lemma QuoteScanned(s: string, rest: string)
    requires Quote(s).Ok? && (rest != "" ==> rest[0] != '"')
    ensures var text := Quote(s).value;
      ScanString(text + rest) == Ok(StringToken(|text|, '\\' !in text))
  {
    hide StringValue, Escaped, Covered, ScanBasic;
    var e, text := Escaped(s).value, Quote(s).value;
    var all := text + rest;
    QuoteRoundTrips(s);
    EscapedCovered(s);
    assert all[1..1 + |e|] == e && all[..|text|] == text;
    ScanBasicOver(all, 1, e, true);
    ScanBasicCloses(all, 1 + |e|, '\\' !in e);
    QuoteOpensPlain(s, rest);
  }

  lemma QuoteOpensPlain(s: string, rest: string)
    requires Quote(s).Ok? && (rest != "" ==> rest[0] != '"')
    ensures !OpensMultiline(Quote(s).value + rest, '"') && !OpensMultiline(Quote(s).value + rest, '\'')
  {
    if s != "" {
      EscapedHidesQuote(s);
    }
  }
}
