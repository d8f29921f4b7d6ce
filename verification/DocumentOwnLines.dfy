/**
 In a regular text the line of every entry begins behind a newline, with nothing but blanks in front of its key, and no
 value ends in a newline. This is what the laws about added lines ask of the entries that are edited.
 */
module DocumentOwnLines {
  import opened Results
  import opened Bytes
  import opened StringParser
  import DateTimes
  import opened Lexer
  import opened TokenMachine
  import opened DocumentReader
  import opened DocumentText
  import opened DocumentEntries
  import opened DocumentEditor
  import opened DocumentInsertions

  // ----- The last byte of a value -----

  lemma {:induction false} RunIsQuotes(s: string, c: char, i: nat)
    requires i < ByteRun(s, c)
    ensures s[i] == c
  {
    if i > 0 {
      RunIsQuotes(s[1..], c, i - 1);
    }
  }

  lemma RunStarts(s: string, c: char)
    requires s != "" && s[0] == c
    ensures ByteRun(s, c) > 0
  {
  }

  /** The quote a multiline string stops at closes it with the run of quotes it starts. */
  lemma ClosingRunEnds(rest: string, stop: nat, run: nat)
    requires stop < |rest| && run == ByteRun(rest[stop..], rest[0]) && run >= 3
    ensures rest[stop + (if run > 5 then 5 else run) - 1] == rest[0]
  {
    var last := (if run > 5 then 5 else run) - 1;
    RunIsQuotes(rest[stop..], rest[0], last);
    assert rest[stop..][last] == rest[stop + last];
  }

  lemma MultilineUnfolds(rest: string, end: nat, ready: bool)
    requires rest != "" && IsQuote(rest[0]) && 3 <= end <= |rest| && ScanMultiline(rest, end, ready).Ok?
    ensures var stop := end + FirstStop(rest[end..], QuoteStop(rest[0]));
      && stop < |rest|
      && if rest[0] == '"' && rest[stop] == '\\' then
           stop + 1 < |rest| && ScanMultiline(rest, end, ready) == ScanMultiline(rest, stop + 2, false)
         else
           var run := ByteRun(rest[stop..], rest[0]);
           && rest[stop] == rest[0]
           && if run >= 3 then ScanMultiline(rest, end, ready).value.length == stop + (if run > 5 then 5 else run)
              else run > 0 && ScanMultiline(rest, end, ready) == ScanMultiline(rest, stop + run, ready)
  {
    hide StringValue;
    var stop := end + FirstStop(rest[end..], QuoteStop(rest[0]));
    assert rest[stop..][0] == rest[stop] == rest[end..][stop - end];
    if rest[stop] == rest[0] {
      RunStarts(rest[stop..], rest[0]);
    }
  }

  lemma {:induction false} MultilineEnds(rest: string, end: nat, ready: bool)
    requires rest != "" && IsQuote(rest[0]) && 3 <= end <= |rest| && ScanMultiline(rest, end, ready).Ok?
    ensures rest[ScanMultiline(rest, end, ready).value.length - 1] == rest[0]
    decreases |rest| - end
  {
    hide ScanMultiline, FirstStop, ByteRun;
    MultilineUnfolds(rest, end, ready);
    var stop := end + FirstStop(rest[end..], QuoteStop(rest[0]));
    var run := ByteRun(rest[stop..], rest[0]);
    if rest[0] == '"' && rest[stop] == '\\' {
      MultilineEnds(rest, stop + 2, false);
    } else if run >= 3 {
      ClosingRunEnds(rest, stop, run);
    } else {
      MultilineEnds(rest, stop + run, ready);
    }
  }

  lemma {:induction false} BasicEnds(rest: string, i: nat, escapeFree: bool)
    requires rest != "" && 1 <= i <= |rest| && ScanBasic(rest, i, escapeFree).Ok?
    ensures rest[ScanBasic(rest, i, escapeFree).value.length - 1] == '"'
    decreases |rest| - i
  {
    hide Checked;
    var stop := i + FirstStop(rest[i..], BasicStringStrictStop);
    if rest[stop] == '\\' {
      BasicEnds(rest, stop + 2, false);
    }
  }

  lemma StringEnds(rest: string)
    requires rest != "" && IsQuote(rest[0]) && ScanString(rest).Ok?
    ensures IsQuote(rest[ScanString(rest).value.length - 1])
  {
    hide Checked, ScanMultiline, ScanBasic;
    if OpensMultiline(rest, '"') || OpensMultiline(rest, '\'') {
      MultilineEnds(rest, 3, true);
    } else if rest[0] == '"' {
      BasicEnds(rest, 1, true);
    } else {
      var n := FirstStop(rest[1..], LiteralStringStop);
      assert rest[1..][n] == rest[n + 1];
    }
  }

  lemma BareEnds(rest: string)
    requires rest != "" && ScanBareValueEnd(rest) > 0
    ensures rest[ScanBareValueEnd(rest) - 1] != '\n'
  {
    hide DateTimes.ParseDateTime;
    var end := FirstStop(rest, BareValueDelimiter);
    if ScanBareValueEnd(rest) > end + 1 {
      var last := ScanBareValueEnd(rest) - end - 2;
      assert rest[end + 1..][last] == rest[end + 1 + last];
    }
  }

  lemma ValueEnds(rest: string, inp: Input)
    requires rest != "" && ScanValue(rest, inp).Ok?
    ensures rest[ScanValue(rest, inp).value.length - 1] != '\n'
  {
    hide ScanString, ScanBareValueEnd, Classify;
    if IsQuote(rest[0]) {
      StringEnds(rest);
    } else {
      BareEnds(rest);
    }
  }

  lemma TurnLastByte(inp: Input, st: State)
    requires st.off < |inp.buf| && !Blank(inp.buf[st.off]) && TurnAt(inp, st).Emit? && EndsValue(TurnAt(inp, st).token.kind)
    ensures var t := TurnAt(inp, st).token; 0 < t.end <= |inp.buf| && inp.buf[t.end - 1] != '\n'
  {
    hide ScanComment, ScanKey, ScanValue, HeaderEnd, ValidateHeaderKey;
    if ScanValue(inp.buf[st.off..], inp).Ok? {
      ValueEnds(inp.buf[st.off..], inp);
      var n := ScanValue(inp.buf[st.off..], inp).value.length;
      assert inp.buf[st.off..][n - 1] == inp.buf[st.off + n - 1];
    }
  }

  lemma {:induction false} ReadLastByte(inp: Input, st: State)
    requires Inv(inp, st) && ReadToken(inp, st).Tok? && EndsValue(ReadToken(inp, st).token.kind)
    ensures inp.buf[ReadToken(inp, st).token.end - 1] != '\n'
    decreases |inp.buf| - st.off
  {
    hide TurnAt, SkipSpaces, EndsValue;
    TurnKeepsInv(inp, st);
    SkipSpacesStops(inp.buf, st);
    var s := SkipSpaces(inp.buf, st);
    if LoopTurn(inp, st).Again? {
      ReadLastByte(inp, LoopTurn(inp, st).st);
    } else if s.off < |inp.buf| {
      TurnLastByte(inp, s);
    }
  }

  lemma {:induction false} BracketSpanEnds(inp: Input, st: State, arrays: int, inlines: int, start: nat, end: nat,
                                           kind: TokenKind)
    requires Inv(inp, st) && start < end <= st.off && BracketSpan(inp, st, arrays, inlines, start, end, kind).Ok?
    requires arrays <= 0 && inlines <= 0 ==> end <= |inp.buf| && inp.buf[end - 1] != '\n'
    ensures var e := BracketSpan(inp, st, arrays, inlines, start, end, kind).value.span.end;
      0 < e <= |inp.buf| && inp.buf[e - 1] != '\n'
    decreases |inp.buf| - st.off
  {
    hide ReadToken;
    if arrays > 0 || inlines > 0 {
      TokenInside(inp, st);
      var next, t := ReadToken(inp, st).st, ReadToken(inp, st).token;
      if EndsValue(t.kind) {
        ReadLastByte(inp, st);
      }
      var a := if t.kind.ArrayStart? then arrays + 1 else if t.kind.ArrayEnd? then arrays - 1 else arrays;
      var i :=
        if t.kind.InlineTableStart? then inlines + 1 else if t.kind.InlineTableEnd? then inlines - 1 else inlines;
      BracketSpanEnds(inp, next, a, i, start, t.end, kind);
    }
  }

  /** No value ends in a newline. */
  lemma {:induction false} ValueSpanEnds(inp: Input, st: State)
    requires Inv(inp, st) && st.expectingValue && st.stack == [] && ReadValueSpan(inp, st).Ok?
    ensures var e := ReadValueSpan(inp, st).value.span.end; 0 < e <= |inp.buf| && inp.buf[e - 1] != '\n'
    decreases |inp.buf| - st.off
  {
    hide ReadToken, BracketSpan, EndsValue;
    TokenInside(inp, st);
    ReadExpecting(inp, st);
    var next, t := ReadToken(inp, st).st, ReadToken(inp, st).token;
    if t.kind.Comment? {
      ValueSpanEnds(inp, next);
    } else if t.kind.ArrayStart? {
      BracketSpanEnds(inp, next, 1, 0, t.start, t.end, t.kind);
    } else if t.kind.InlineTableStart? {
      BracketSpanEnds(inp, next, 0, 1, t.start, t.end, t.kind);
    } else {
      ReadLastByte(inp, st);
    }
  }

  // ----- What stands in front of a key -----

  /** A line, or the text behind a byte order mark, begins at `p`, and there are only blanks up to `off`. */
  predicate BlankSince(buf: string, p: nat, off: nat) {
    && p <= off <= |buf| && (p == 0 || buf[p - 1] == '\n' || (p == 3 && BOM <= buf))
    && forall j :: p <= j < off ==> Blank(buf[j])
  }

  /** Nothing but blanks stands between `off` and the start of its line, or of the text behind a byte order mark. */
  ghost predicate FreshFrom(buf: string, off: nat) {
    exists p :: BlankSince(buf, p, off)
  }

  predicate AtLineEnd(buf: string, off: nat) {
    off >= |buf| || buf[off] == '\n' || StartsCrLf(buf[off..])
  }

  /** Between statements: a line end is due, or comes next, or has just been passed. */
  ghost predicate ReadyForLine(buf: string, st: State) {
    st.needLineEnd || FreshFrom(buf, st.off) || AtLineEnd(buf, st.off)
  }

  lemma StepReady(buf: string, st: State)
    requires st.off < |buf| && ReadyForLine(buf, st) && !st.valueNoNewline
    ensures ReadyForLine(buf, SpaceStep(buf, st))
  {
    var next := SpaceStep(buf, st);
    if !next.needLineEnd && next.off != st.off {
      if Blank(buf[st.off]) {
        if FreshFrom(buf, st.off) {
          var p: nat :| BlankSince(buf, p, st.off);
          assert BlankSince(buf, p, next.off);
        }
      } else {
        assert buf[next.off - 1] == '\n' by {
          if buf[st.off] != '\n' {
            assert buf[st.off..][1] == buf[st.off + 1];
          }
        }
        assert BlankSince(buf, next.off, next.off);
      }
    }
  }

  lemma {:induction false} SpacesReady(buf: string, st: State)
    requires ReadyForLine(buf, st) && !st.valueNoNewline
    ensures ReadyForLine(buf, SkipSpaces(buf, st))
    decreases |buf| - st.off
  {
    hide ReadyForLine, SpaceStep;
    if st.off < |buf| && SpaceStep(buf, st).off != st.off {
      StepReady(buf, st);
      StepKeepsFlag(buf, st);
      SpacesReady(buf, SpaceStep(buf, st));
    }
  }

  lemma StepKeepsFlag(buf: string, st: State)
    requires st.off < |buf|
    ensures SpaceStep(buf, st).valueNoNewline == st.valueNoNewline
  {
  }

  lemma CommentEnds(rest: string)
    requires rest != "" && ScanComment(rest).Ok?
    ensures AtLineEnd(rest, ScanComment(rest).value)
  {
  }

  lemma TurnReady(inp: Input, st: State)
    requires Inv(inp, st) && Between(st) && st.off < |inp.buf| && !Blank(inp.buf[st.off]) && TurnAt(inp, st).Emit?
    ensures var turn := TurnAt(inp, st);
      && (turn.token.kind.Comment? ==> ReadyForLine(inp.buf, turn.st))
      && (turn.token.kind.TableHeader? || turn.token.kind.ArrayTableHeader? ==> turn.st.needLineEnd)
  {
    hide ScanComment, ScanKey, ScanValue, HeaderEnd, ValidateHeaderKey, FreshFrom;
    var rest := inp.buf[st.off..];
    if inp.buf[st.off] == '#' && ScanComment(rest).Ok? {
      CommentEnds(rest);
      var n := ScanComment(rest).value;
      assert rest[n..] == inp.buf[st.off + n..];
    }
  }

  /** A key between statements has only blanks in front of it on its line. */
  lemma ReadReady(inp: Input, st: State)
    requires Inv(inp, st) && Between(st) && ReadyForLine(inp.buf, st) && ReadToken(inp, st).Tok?
    ensures var next, t := ReadToken(inp, st).st, ReadToken(inp, st).token;
      && (t.kind.Key? ==> FreshFrom(inp.buf, t.start))
      && (t.kind.Comment? || t.kind.TableHeader? || t.kind.ArrayTableHeader? ==> ReadyForLine(inp.buf, next))
  {
    hide TurnAt, SkipSpaces, FreshFrom;
    TurnKeepsInv(inp, st);
    SkipSpacesStops(inp.buf, st);
    SpacesReady(inp.buf, st);
    var s := SkipSpaces(inp.buf, st);
    if s.off < |inp.buf| {
      NoTurnAgain(inp, s);
      if TurnAt(inp, s).Emit? {
        TurnBetween(inp, s);
        TurnReady(inp, s);
      }
    }
  }

  lemma {:induction false} LineStartFresh(buf: string, off: nat, p: nat)
    requires BlankSince(buf, p, off)
    ensures LineStart(buf, off) == 0 || buf[LineStart(buf, off) - 1] == '\n'
  {
    if off > p {
      LineStartFresh(buf, off - 1, p);
    } else if p == 3 && BOM <= buf {
      assert buf[0] == BOM[0] && buf[1] == BOM[1] && buf[2] == BOM[2];
      assert LineStart(buf, 0) == 0 && LineStart(buf, 1) == 0 && LineStart(buf, 2) == 0;
    }
  }

  // ----- Regular texts -----

  /** The line of an entry as it was found. */
  predicate FoundOnOwnLine(buf: string, f: Found) {
    && f.key.start <= |buf| && 0 < f.value.end <= |buf| && buf[f.value.end - 1] != '\n'
    && (LineStart(buf, f.key.start) == 0 || buf[LineStart(buf, f.key.start) - 1] == '\n')
  }

  lemma FreshIsOwn(buf: string, off: nat)
    requires FreshFrom(buf, off)
    ensures off <= |buf| && (LineStart(buf, off) == 0 || buf[LineStart(buf, off) - 1] == '\n')
  {
    var p: nat :| BlankSince(buf, p, off);
    LineStartFresh(buf, off, p);
  }

  lemma {:induction false} EntriesOwnLines(inp: Input, st: State, current: string)
    requires Inv(inp, st) && Between(st) && ReadyForLine(inp.buf, st)
    requires ReadEntries(inp, st, current).Ok? && ReadEntries(inp, st, current).value.regular
    ensures forall i :: 0 <= i < |ReadEntries(inp, st, current).value.found| ==>
      FoundOnOwnLine(inp.buf, ReadEntries(inp, st, current).value.found[i])
    decreases |inp.buf| - st.off
  {
    hide ReadToken, ReadValueSpan, KeyOf, FoundOnOwnLine, FreshFrom, AtLineEnd;
    if ReadToken(inp, st).Tok? {
      var next, t := ReadToken(inp, st).st, ReadToken(inp, st).token;
      TokenInside(inp, st);
      ReadBetween(inp, st);
      TokenBetweenMeans(inp, st, next, t);
      ReadReady(inp, st);
      if t.kind.Comment? {
        EntriesOwnLines(inp, next, current);
      } else if t.kind.TableHeader? || t.kind.ArrayTableHeader? {
        var key := KeyOf(HeaderText(Raw(inp, t), if t.kind.ArrayTableHeader? then 2 else 1)).value;
        EntriesOwnLines(inp, next, key);
      } else if t.kind.Key? {
        var one := ReadEntry(inp, next, current, t).value;
        ValueSpanOver(inp, next);
        ValueSpanEnds(inp, next);
        FreshIsOwn(inp.buf, t.start);
        assert FoundOnOwnLine(inp.buf, one.entry) by {
          OwnFound(inp.buf, one.entry);
        }
        EntriesOwnLines(inp, one.st, current);
      }
    }
  }

  lemma OwnFound(buf: string, f: Found)
    requires f.key.start <= |buf| && 0 < f.value.end <= |buf| && buf[f.value.end - 1] != '\n'
    requires LineStart(buf, f.key.start) == 0 || buf[LineStart(buf, f.key.start) - 1] == '\n'
    ensures FoundOnOwnLine(buf, f)
  {
  }

  lemma OpenedReady(inp: Input, maxDocumentSize: int)
    requires Opened(inp, maxDocumentSize).err.None?
    ensures Between(Opened(inp, maxDocumentSize)) && ReadyForLine(inp.buf, Opened(inp, maxDocumentSize))
  {
    assert BlankSince(inp.buf, 0, 0);
    if BOM <= inp.buf {
      assert BlankSince(inp.buf, 3, 3);
    }
  }

  /** In a regular text the entries' lines are their own, whatever has been asked of them. */
  lemma RegularOwnsLines(inp: Input, maxDocumentSize: int, entries: seq<Entry>, lines: seq<Line>)
    requires Inv(inp, Opened(inp, maxDocumentSize)) && ReadEntries(inp, Opened(inp, maxDocumentSize), "").Ok?
    requires var read := ReadEntries(inp, Opened(inp, maxDocumentSize), "").value;
      read.regular && EntriesFor(inp.buf, read.found, entries)
    requires |lines| == |entries|
    requires forall i :: 0 <= i < |lines| ==> lines[i].line == entries[i].lineSpan && lines[i].value == entries[i].valueSpan
    ensures OwnLines(inp.buf, lines)
  {
    hide Opened, ReadyForLine, Between, Inv, ReadEntries, OwnLine, FoundOnOwnLine, EntryFor;
    var st := Opened(inp, maxDocumentSize);
    ReadsIfNoError(inp, st);
    OpenedReady(inp, maxDocumentSize);
    EntriesOwnLines(inp, st, "");
    var found := ReadEntries(inp, st, "").value.found;
    forall i | 0 <= i < |lines| ensures OwnLine(inp.buf, lines[i]) {
      EntryOwnsLine(inp.buf, found[i], entries[i], lines[i]);
    }
  }

  lemma EntryOwnsLine(buf: string, f: Found, e: Entry, l: Line)
    requires FoundOnOwnLine(buf, f) && EntryFor(buf, f, e) && l.line == e.lineSpan && l.value == e.valueSpan
    ensures OwnLine(buf, l)
  {
  }

  lemma ReadsIfNoError(inp: Input, st: State)
    requires Inv(inp, st) && ReadEntries(inp, st, "").Ok?
    ensures st.err.None?
  {
  }
}
