/**
 How the editor finds its entries: `ParseDocument` of the editor reads tokens, not statements, and keeps the spans of
 keys and values. When brackets match and nothing stray stands between the statements, a newline keeps any two entries
 apart, so each stands on lines of its own.
 */
module DocumentEntries {
  import opened Results
  import opened Bytes
  import opened Paths
  import opened StringParser
  import opened Lexer
  import opened TokenMachine
  import opened TokenRuns
  import opened DocumentReader
  import opened DocumentKeys
  import opened DocumentText
  import Editor = DocumentEditor
  import D = Decoder
  import M = TableMachine

  /** A value's span and the decoder behind it. */
  datatype ValueSpan = ValueSpan(span: Span, kind: TokenKind, st: State)

  /** The tokens of a bracketed value, up to where both counts of open brackets are down to nothing. */
  function BracketSpan(inp: Input, st: State, arrays: int, inlines: int, start: nat, end: nat, kind: TokenKind)
    : (r: Result<ValueSpan, ReadFault>)
    requires Inv(inp, st) && start < end <= st.off
    ensures r.Ok? ==> Inv(inp, r.value.st) && st.off <= r.value.st.off
    ensures r.Ok? ==> r.value.span.start == start < r.value.span.end <= r.value.st.off
    decreases |inp.buf| - st.off
  {
    if arrays <= 0 && inlines <= 0 then Ok(ValueSpan(Span(start, end), kind, st))
    else
      match ReadToken(inp, st)
      case Stopped(_, f) => Err(Lexical(f))
      case Ended(_) => Err(UnexpectedEnd)
      case Tok(next, t) =>
        TokenInside(inp, st);
        var a := if t.kind.ArrayStart? then arrays + 1 else if t.kind.ArrayEnd? then arrays - 1 else arrays;
        var i :=
          if t.kind.InlineTableStart? then inlines + 1 else if t.kind.InlineTableEnd? then inlines - 1 else inlines;
        BracketSpan(inp, next, a, i, start, t.end, kind)
  }

  /** Tokens lie between the places the decoder was at. */
  lemma TokenInside(inp: Input, st: State)
    requires Inv(inp, st)
    ensures match ReadToken(inp, st)
            case Tok(next, t) => st.off <= t.start < t.end <= next.off
            case _ => true
  {
    ReadTokenReadsWhole(inp, st);
  }

  /** `readValue`. */
  function ReadValueSpan(inp: Input, st: State): (r: Result<ValueSpan, ReadFault>)
    requires Inv(inp, st)
    ensures r.Ok? ==> Inv(inp, r.value.st) && st.off < r.value.st.off
    ensures r.Ok? ==> st.off <= r.value.span.start < r.value.span.end <= r.value.st.off
    decreases |inp.buf| - st.off
  {
    match ReadToken(inp, st)
    case Stopped(_, f) => Err(Lexical(f))
    case Ended(_) => Err(UnexpectedEnd)
    case Tok(next, t) =>
      TokenInside(inp, st);
      if t.kind.Comment? then ReadValueSpan(inp, next)
      else if t.kind.ArrayStart? then BracketSpan(inp, next, 1, 0, t.start, t.end, t.kind)
      else if t.kind.InlineTableStart? then BracketSpan(inp, next, 0, 1, t.start, t.end, t.kind)
      else Ok(ValueSpan(Span(t.start, t.end), t.kind, next))
  }

  /** An entry as it is found. */
  datatype Found = Found(pathKey: string, key: Span, value: Span, kind: TokenKind)

  /**
   The entries of a document. It is regular when every value closes the brackets it opens, and no token but a comment,
   a header or a key stands where a statement starts.
   */
  datatype Entries = Entries(found: seq<Found>, regular: bool)

  function KeyOf(text: string): Result<string, ReadFault> {
    match PathKeyOf(text)
    case Ok(k) => Ok(k)
    case Err(f) => Err(BadPath(f))
  }

  /** An entry and the decoder behind it. */
  datatype FoundAt = FoundAt(entry: Found, st: State)

  /** The entry whose key token has just been read. */
  function ReadEntry(inp: Input, st: State, current: string, t: Token): (r: Result<FoundAt, ReadFault>)
    requires Inv(inp, st) && t.start < t.end <= |inp.buf|
    ensures r.Ok? ==> Inv(inp, r.value.st) && st.off < r.value.st.off
  {
    var key :- KeyOf(Raw(inp, t));
    var v :- ReadValueSpan(inp, st);
    Ok(FoundAt(Found(Joined(current, key), Span(t.start, t.end), v.span, v.kind), v.st))
  }

  function ReadEntries(inp: Input, st: State, current: string): (r: Result<Entries, ReadFault>)
    requires Inv(inp, st)
    decreases |inp.buf| - st.off
  {
    match ReadToken(inp, st)
    case Stopped(_, f) => Err(Lexical(f))
    case Ended(_) => Ok(Entries([], true))
    case Tok(next, t) =>
      if t.kind.Comment? then ReadEntries(inp, next, current)
      else if t.kind.TableHeader? || t.kind.ArrayTableHeader? then
        var key :- KeyOf(HeaderText(Raw(inp, t), if t.kind.ArrayTableHeader? then 2 else 1));
        ReadEntries(inp, next, key)
      else if t.kind.Key? then
        var one :- ReadEntry(inp, next, current, t);
        var rest :- ReadEntries(inp, one.st, current);
        Ok(Entries([one.entry] + rest.found, rest.regular && one.st.stack == []))
      else if current == "" then Err(UnexpectedToken)
      else
        var rest :- ReadEntries(inp, next, current);
        Ok(Entries(rest.found, false))
  }

  // ----- A newline between entries -----

  lemma NewlineWider(buf: string, from: nat, to: nat, from': nat, to': nat)
    requires NewlineBetween(buf, from, to) && from' <= from && to <= to'
    ensures NewlineBetween(buf, from', to')
  {
    var p :| from <= p < to && p < |buf| && buf[p] == '\n';
  }

  /** A line end that was due and no longer is has been passed. */
  lemma {:induction false} DueLineEndPassed(buf: string, st: State)
    requires st.off <= |buf| && st.needLineEnd && !SkipSpaces(buf, st).needLineEnd
    ensures NewlineBetween(buf, st.off, SkipSpaces(buf, st).off)
    decreases |buf| - st.off
  {
    SkipSpacesStops(buf, st);
    if st.off < |buf| && SpaceStep(buf, st) != st {
      var next := SpaceStep(buf, st);
      SkipSpacesStops(buf, next);
      if next.needLineEnd {
        DueLineEndPassed(buf, next);
        NewlineWider(buf, next.off, SkipSpaces(buf, st).off, st.off, SkipSpaces(buf, st).off);
      } else {
        LineEndHere(buf, st);
      }
    }
  }

  lemma LineEndHere(buf: string, st: State)
    requires st.off < |buf| && st.needLineEnd && !SpaceStep(buf, st).needLineEnd
    ensures NewlineBetween(buf, st.off, SpaceStep(buf, st).off)
  {
    if buf[st.off] != '\n' {
      assert buf[st.off..][1] == buf[st.off + 1];
      assert buf[st.off + 1] == '\n';
    } else {
      assert buf[st.off] == '\n';
    }
  }

  /** At the top level, between two statements. */
  predicate Between(st: State) {
    st.stack == [] && !st.expectingValue
  }

  /** The entry that ends at `e` is over: its line end is still due, or has been passed. */
  predicate LineOver(buf: string, st: State, e: nat) {
    e <= st.off && (st.needLineEnd || NewlineBetween(buf, e, st.off))
  }

  /** What a token between statements is, and what it does to the line end that is due. */
  ghost predicate TokenBetween(inp: Input, st: State, next: State, t: Token) {
    && (t.kind.Comment? ==> Between(next) && (st.needLineEnd ==> next.needLineEnd || NewlineBetween(inp.buf, st.off, next.off)))
    && (t.kind.TableHeader? || t.kind.ArrayTableHeader? ==> Between(next))
    && (!t.kind.Comment? && st.needLineEnd ==> NewlineBetween(inp.buf, st.off, t.start))
    && (t.kind.Key? ==> next.stack == [] && next.expectingValue)
  }

  lemma TurnBetween(inp: Input, st: State)
    requires Inv(inp, st) && Between(st) && st.off < |inp.buf| && !Blank(inp.buf[st.off]) && TurnAt(inp, st).Emit?
    ensures var turn := TurnAt(inp, st);
      && turn.token.start == st.off
      && (st.needLineEnd ==> turn.token.kind.Comment?)
      && (turn.token.kind.Comment? ==> Between(turn.st) && turn.st.needLineEnd == st.needLineEnd)
      && (turn.token.kind.TableHeader? || turn.token.kind.ArrayTableHeader? ==> Between(turn.st))
      && (turn.token.kind.Key? ==> turn.st.stack == [] && turn.st.expectingValue)
  {
    hide ScanComment, ScanKey, ScanValue, HeaderEnd, ValidateHeaderKey;
  }

  lemma NoTurnAgain(inp: Input, st: State)
    requires Inv(inp, st) && Between(st) && st.off < |inp.buf| && !Blank(inp.buf[st.off])
    requires st.needLineEnd ==> inp.buf[st.off] != '\n'
    ensures !TurnAt(inp, st).Again?
  {
    hide ScanComment, ScanKey, ScanValue, HeaderEnd, ValidateHeaderKey;
  }

  lemma ReadBetween(inp: Input, st: State)
    requires Inv(inp, st) && Between(st) && ReadToken(inp, st).Tok?
    ensures TokenBetween(inp, st, ReadToken(inp, st).st, ReadToken(inp, st).token)
  {
    hide TurnAt, SkipSpaces;
    TurnKeepsInv(inp, st);
    SkipSpacesStops(inp.buf, st);
    var s := SkipSpaces(inp.buf, st);
    if s.off < |inp.buf| {
      NoTurnAgain(inp, s);
      if TurnAt(inp, s).Emit? {
        TurnBetween(inp, s);
        if st.needLineEnd && !s.needLineEnd {
          DueLineEndPassed(inp.buf, st);
          NewlineWider(inp.buf, st.off, s.off, st.off, TurnAt(inp, s).st.off);
        }
      }
    }
  }

  // ----- What a value leaves behind -----

  predicate EndsValue(kind: TokenKind) {
    kind.ArrayEnd? || kind.InlineTableEnd? || kind.StringValueToken? || kind.IntegerToken? || kind.FloatToken?
    || kind.BoolToken? || kind.DatetimeToken?
  }

  /** Behind a complete value at the top level a line end is due. */
  predicate ValueOver(st: State) {
    st.stack == [] ==> Between(st) && st.needLineEnd
  }

  lemma TurnEndsValue(inp: Input, st: State)
    requires st.off < |inp.buf| && !Blank(inp.buf[st.off]) && TurnAt(inp, st).Emit?
    ensures EndsValue(TurnAt(inp, st).token.kind) ==> ValueOver(TurnAt(inp, st).st)
  {
    hide ScanComment, ScanKey, ScanValue, HeaderEnd, ValidateHeaderKey;
  }

  lemma {:induction false} ReadEndsValue(inp: Input, st: State)
    requires Inv(inp, st) && ReadToken(inp, st).Tok?
    ensures EndsValue(ReadToken(inp, st).token.kind) ==> ValueOver(ReadToken(inp, st).st)
    decreases |inp.buf| - st.off
  {
    hide TurnAt, SkipSpaces, EndsValue, ValueOver;
    TurnKeepsInv(inp, st);
    SkipSpacesStops(inp.buf, st);
    var s := SkipSpaces(inp.buf, st);
    if s.off < |inp.buf| && TurnAt(inp, s).Emit? {
      TurnEndsValue(inp, s);
    }
    if LoopTurn(inp, st).Again? {
      ReadEndsValue(inp, LoopTurn(inp, st).st);
    }
  }

  /** Where a value is due at the top level, no header and no key can come. */
  lemma TurnExpecting(inp: Input, st: State)
    requires Inv(inp, st) && st.expectingValue && st.stack == [] && st.off < |inp.buf| && !Blank(inp.buf[st.off])
    ensures !TurnAt(inp, st).Again?
    ensures var turn := TurnAt(inp, st);
      turn.Emit? ==>
        if turn.token.kind.Comment? then turn.st.expectingValue && turn.st.stack == []
        else turn.token.kind.ArrayStart? || turn.token.kind.InlineTableStart? || EndsValue(turn.token.kind)
  {
    hide ScanComment, ScanKey, HeaderEnd, ValidateHeaderKey;
    ValueKinds(inp, st);
  }

  lemma ValueKinds(inp: Input, st: State)
    requires st.off < |inp.buf|
    ensures ValueTurn(inp, st).Emit? ==> EndsValue(ValueTurn(inp, st).token.kind)
  {
    hide ScanString, ScanBareValueEnd, Classify;
    var rest := inp.buf[st.off..];
    if !IsQuote(rest[0]) {
      KindOfBare(rest[..ScanBareValueEnd(rest)], inp.readsFloat);
    }
  }

  lemma KindOfBare(raw: string, readsFloat: FloatReader)
    ensures Classify(raw, readsFloat).Ok? ==> EndsValue(Classify(raw, readsFloat).value)
  {
    hide LooksLikeDatetime, FloatCandidate;
  }

  lemma ReadExpecting(inp: Input, st: State)
    requires Inv(inp, st) && st.expectingValue && st.stack == [] && ReadToken(inp, st).Tok?
    ensures var next, t := ReadToken(inp, st).st, ReadToken(inp, st).token;
      if t.kind.Comment? then next.expectingValue && next.stack == []
      else t.kind.ArrayStart? || t.kind.InlineTableStart? || EndsValue(t.kind)
  {
    hide TurnAt, SkipSpaces, EndsValue;
    TurnKeepsInv(inp, st);
    SkipSpacesStops(inp.buf, st);
    var s := SkipSpaces(inp.buf, st);
    if s.off < |inp.buf| {
      TurnExpecting(inp, s);
    }
  }

  lemma {:induction false} BracketSpanOver(inp: Input, st: State, arrays: int, inlines: int, start: nat, end: nat,
                                           kind: TokenKind)
    requires Inv(inp, st) && start < end <= st.off && BracketSpan(inp, st, arrays, inlines, start, end, kind).Ok?
    requires arrays <= 0 && inlines <= 0 ==> ValueOver(st)
    ensures ValueOver(BracketSpan(inp, st, arrays, inlines, start, end, kind).value.st)
    decreases |inp.buf| - st.off
  {
    hide ReadToken, ValueOver;
    if arrays > 0 || inlines > 0 {
      TokenInside(inp, st);
      ReadEndsValue(inp, st);
      var next, t := ReadToken(inp, st).st, ReadToken(inp, st).token;
      var a := if t.kind.ArrayStart? then arrays + 1 else if t.kind.ArrayEnd? then arrays - 1 else arrays;
      var i :=
        if t.kind.InlineTableStart? then inlines + 1 else if t.kind.InlineTableEnd? then inlines - 1 else inlines;
      BracketSpanOver(inp, next, a, i, start, t.end, kind);
    }
  }

  lemma {:induction false} ValueSpanOver(inp: Input, st: State)
    requires Inv(inp, st) && st.expectingValue && st.stack == [] && ReadValueSpan(inp, st).Ok?
    ensures ValueOver(ReadValueSpan(inp, st).value.st)
    decreases |inp.buf| - st.off
  {
    hide ReadToken, ValueOver, BracketSpan;
    TokenInside(inp, st);
    ReadExpecting(inp, st);
    ReadEndsValue(inp, st);
    var next, t := ReadToken(inp, st).st, ReadToken(inp, st).token;
    if t.kind.Comment? {
      ValueSpanOver(inp, next);
    } else if t.kind.ArrayStart? {
      BracketSpanOver(inp, next, 1, 0, t.start, t.end, t.kind);
    } else if t.kind.InlineTableStart? {
      BracketSpanOver(inp, next, 0, 1, t.start, t.end, t.kind);
    }
  }

  // ----- Regular documents are laid out -----

  function PlacedOf(found: seq<Found>): seq<Placed> {
    seq(|found|, i requires 0 <= i < |found| => Placed(found[i].key, found[i].value))
  }

  /** The entries are separated from each other, and from what ended at `e`, when anything did. */
  ghost predicate SeparatedBehind(buf: string, found: seq<Found>, e: Option<nat>) {
    && Separated(buf, PlacedOf(found))
    && (found != [] && e.Some? ==> NewlineBetween(buf, e.value, found[0].key.start))
  }

  lemma FirstSeparated(buf: string, f: Found, rest: seq<Found>, e: Option<nat>)
    requires f.key.start < f.value.start < f.value.end <= |buf| && SeparatedBehind(buf, rest, Some(f.value.end))
    requires e.Some? ==> NewlineBetween(buf, e.value, f.key.start)
    ensures SeparatedBehind(buf, [f] + rest, e)
  {
    hide NewlineBetween;
    var all, placed, later := [f] + rest, PlacedOf([f] + rest), PlacedOf(rest);
    assert forall i :: 1 <= i < |all| ==> placed[i] == later[i - 1];
    forall i | 0 < i < |placed| ensures NewlineBetween(buf, placed[i - 1].value.end, placed[i].key.start) {
      if i > 1 {
        assert placed[i - 1] == later[i - 2] && placed[i] == later[i - 1];
      }
    }
  }

  lemma LineStillOver(inp: Input, st: State, next: State, t: Token, e: nat)
    requires TokenBetween(inp, st, next, t) && LineOver(inp.buf, st, e) && st.off <= t.start < t.end <= next.off
    ensures !t.kind.Comment? ==> NewlineBetween(inp.buf, e, t.start)
    ensures t.kind.Comment? || t.kind.TableHeader? || t.kind.ArrayTableHeader? ==> LineOver(inp.buf, next, e)
  {
    hide NewlineBetween;
    if st.needLineEnd {
      if NewlineBetween(inp.buf, st.off, next.off) {
        NewlineWider(inp.buf, st.off, next.off, e, next.off);
      }
      if NewlineBetween(inp.buf, st.off, t.start) {
        NewlineWider(inp.buf, st.off, t.start, e, t.start);
        NewlineWider(inp.buf, st.off, t.start, e, next.off);
      }
    } else {
      NewlineWider(inp.buf, e, st.off, e, t.start);
      NewlineWider(inp.buf, e, st.off, e, next.off);
    }
  }

  lemma {:induction false} EntriesSeparated(inp: Input, st: State, current: string, e: Option<nat>)
    requires Inv(inp, st) && Between(st) && (e.Some? ==> LineOver(inp.buf, st, e.value))
    requires ReadEntries(inp, st, current).Ok? && ReadEntries(inp, st, current).value.regular
    ensures SeparatedBehind(inp.buf, ReadEntries(inp, st, current).value.found, e)
    decreases |inp.buf| - st.off
  {
    hide ReadToken, ReadValueSpan, TokenBetween, LineOver, SeparatedBehind, KeyOf;
    if ReadToken(inp, st).Tok? {
      var next, t := ReadToken(inp, st).st, ReadToken(inp, st).token;
      TokenInside(inp, st);
      ReadBetween(inp, st);
      TokenBetweenMeans(inp, st, next, t);
      if e.Some? {
        LineStillOver(inp, st, next, t, e.value);
      }
      if t.kind.Comment? {
        EntriesSeparated(inp, next, current, e);
      } else if t.kind.TableHeader? || t.kind.ArrayTableHeader? {
        var key := KeyOf(HeaderText(Raw(inp, t), if t.kind.ArrayTableHeader? then 2 else 1)).value;
        EntriesSeparated(inp, next, key, e);
      } else if t.kind.Key? {
        var one := ReadEntry(inp, next, current, t).value;
        ValueSpanOver(inp, next);
        ValueLineOver(inp.buf, one.st, one.entry.value.end);
        EntriesSeparated(inp, one.st, current, Some(one.entry.value.end));
        ValueInside(inp, one.st);
        FirstSeparated(inp.buf, one.entry, ReadEntries(inp, one.st, current).value.found, e);
      }
    } else {
      NothingSeparated(inp.buf, e);
    }
  }

  lemma TokenBetweenMeans(inp: Input, st: State, next: State, t: Token)
    requires TokenBetween(inp, st, next, t)
    ensures t.kind.Comment? || t.kind.TableHeader? || t.kind.ArrayTableHeader? ==> Between(next)
    ensures t.kind.Key? ==> next.stack == [] && next.expectingValue
  {
  }

  lemma ValueLineOver(buf: string, st: State, e: nat)
    requires ValueOver(st) && st.stack == [] && e <= st.off
    ensures Between(st) && LineOver(buf, st, e)
  {
  }

  lemma ValueInside(inp: Input, st: State)
    requires Inv(inp, st)
    ensures st.off <= |inp.buf|
  {
  }

  lemma NothingSeparated(buf: string, e: Option<nat>)
    ensures SeparatedBehind(buf, [], e)
  {
  }

  // ----- The editor's entries -----

  function KindFrom(kind: TokenKind): Editor.Kind {
    match kind
    case StringValueToken => Editor.StringKind
    case IntegerToken => Editor.IntegerKind
    case FloatToken => Editor.FloatKind
    case BoolToken => Editor.BoolKind
    case DatetimeToken => Editor.DatetimeKind
    case ArrayStart => Editor.ArrayKind
    case InlineTableStart => Editor.InlineTableKind
    case _ => Editor.InvalidKind
  }

  /** An entry with its line and its text. */
  ghost predicate EntryFor(buf: string, f: Found, e: Editor.Entry) {
    && f.key.start <= f.value.start <= f.value.end <= |buf|
    && e == Editor.Entry(f.pathKey, buf[f.value.start..f.value.end], f.value,
                         Span(LineStart(buf, f.key.start), LineEnd(buf, f.value.end)), KindFrom(f.kind), None)
  }

  ghost predicate EntriesFor(buf: string, found: seq<Found>, entries: seq<Editor.Entry>) {
    |entries| == |found| && forall i :: 0 <= i < |found| ==> EntryFor(buf, found[i], entries[i])
  }

  /** The entries of a regular document stand on lines of their own, whatever has been asked of them since. */
  lemma RegularIsLaidOut(inp: Input, maxDocumentSize: int, entries: seq<Editor.Entry>, lines: seq<Line>)
    requires Inv(inp, Opened(inp, maxDocumentSize)) && ReadEntries(inp, Opened(inp, maxDocumentSize), "").Ok?
    requires var read := ReadEntries(inp, Opened(inp, maxDocumentSize), "").value;
      read.regular && EntriesFor(inp.buf, read.found, entries)
    requires |lines| == |entries|
    requires forall i :: 0 <= i < |lines| ==> lines[i].line == entries[i].lineSpan && lines[i].value == entries[i].valueSpan
    ensures LaidOutFrom(inp.buf, lines, 0)
  {
    hide ReadEntries;
    var found := ReadEntries(inp, Opened(inp, maxDocumentSize), "").value.found;
    var placed := PlacedOf(found);
    EntriesSeparated(inp, Opened(inp, maxDocumentSize), "", None);
    SeparatedIsLaidOut(inp.buf, placed, lines, 0);
  }
}
