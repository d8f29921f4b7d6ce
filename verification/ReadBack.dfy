/**
 Parsing what the printer wrote. For every tree of maps the printer takes, within the decoder's limits, the parser
 accepts the printed bytes and rebuilds exactly that tree.
 */
module ReadBack {
  import opened Results
  import opened Bytes
  import opened Utf8
  import opened Paths
  import opened StringParser
  import opened StringWriter
  import opened Lexer
  import opened TokenMachine
  import opened StringTokens
  import opened PrintedKeys
  import opened DocumentReader
  import opened Printer
  import opened PrintedTables
  import opened PrintedText
  import opened PrintedValues
  import M = TableMachine
  import Skipper

  /** Nothing but white space, its line ending included, stands between the decoder and the line that starts at `q`. */
  ghost predicate AtLine(inp: Input, st: State, q: nat) {
    && Inv(inp, st) && q <= |inp.buf| && st.err.None?
    && (st == Start(q, true)
        || (st.off < |inp.buf| && SkipSpaces(inp.buf, st) == SkipSpaces(inp.buf, Start(q, true))))
  }

  lemma LineReads(inp: Input, st: State, q: nat)
    requires AtLine(inp, st, q)
    ensures Inv(inp, Start(q, true)) && (q < |inp.buf| ==> ReadToken(inp, st) == ReadToken(inp, Start(q, true)))
    ensures q == |inp.buf| ==> ReadToken(inp, st).Ended?
  {
    hide TurnAt;
    if st != Start(q, true) {
      Skipper.SameSpaceSameRead(inp, st, Start(q, true));
    }
  }

  /** Behind a token that ends a statement there is the line ending, and then the next line. */
  lemma LineEnds(inp: Input, st: State)
    requires Inv(inp, st) && st.off < |inp.buf| && inp.buf[st.off] == '\n'
    requires st == Start(st.off, false).(needLineEnd := true)
    ensures AtLine(inp, st, st.off + 1)
  {
    assert SpaceStep(inp.buf, st) == Start(st.off + 1, true);
  }

  /** A printed statement within the limits of the decoder. */
  predicate StatementFits(s: M.Statement, limits: Limits) {
    match s
    case Header(path) => FormatPath(path).Ok? && |FormatPath(path).value| <= limits.maxKeyLength
    case ArrayHeader(path) => FormatPath(path).Ok? && |FormatPath(path).value| <= limits.maxKeyLength
    case KeyValue(key, value) =>
      |key| == 1 && KeyFits(key[0], limits) && LiteralFits(value, limits, 0)
  }

  // ----- Assignments -----

  /** At a line start, a printed key and value are read as they were printed. */
  lemma KeyValueReads(inp: Input, q: nat, key: Segment, v: M.Literal, more: string) returns (next: State, after: State)
    requires q <= |inp.buf| && Inv(inp, Start(q, true)) && KeyFits(key, inp.limits)
    requires LiteralFits(v, inp.limits, 0) && WellKeyed(v) && FormatLiteral(v).Ok?
    requires inp.buf[q..] == FormatKey(key).value + (" = " + (FormatLiteral(v).value + ("\n" + more)))
    ensures var k, end := FormatKey(key).value, q + |FormatKey(key).value| + 3 + |FormatLiteral(v).value|;
      && q + |k| <= |inp.buf| && inp.buf[q..q + |k|] == k
      && ReadToken(inp, Start(q, true)) == Tok(next, Token(Key, q, q + |k|, false))
      && Inv(inp, next) && Inv(inp, after) && ParseNext(inp, next) == Ok(Parsed(v, after))
      && after == Start(end, false).(needLineEnd := true) && end < |inp.buf| && inp.buf[end] == '\n'
  {
    hide ReadToken, ParseToken, FormatKey, FormatLiteral, LiteralFits, WellKeyed, ParseNext;
    hide Reads, AtToken, AtValue, Inv, AfterValue, KeyFits, Follows;
    KeyFitsMeans(key, inp.limits);
    var k, t := FormatKey(key).value, FormatLiteral(v).value;
    var tail, s := "\n" + more, Start(q, true);
    KeyAtLine(inp, q, key, " = " + (t + tail));
    FollowsLine(more);
    LiteralStarts(v, inp.limits, 0);
    var at;
    next, at := EntryKeyRead(inp, s, key, t, tail);
    LiteralRead(inp, at, v, tail);
    after := AfterValue(at, at.off + |t|);
    ReadsKeeps(inp, at, v, after);
    ReadsFrom(inp, at, next, v, after);
    NextReads(inp, next, v, after);
    Advance(inp.buf, at.off, t, tail);
    TopValueEnds(q, at, at.off + |t|);
  }

  lemma AssignmentReads(inp: Input, st: State, q: nat, key: Segment, v: M.Literal, more: string,
                        doc: M.State, doc': M.State, inTable: bool) returns (after: State)
    requires AtLine(inp, st, q) && KeyFits(key, inp.limits) && LiteralFits(v, inp.limits, 0) && WellKeyed(v)
    requires FormatLiteral(v).Ok? && M.Valid(doc) && M.StepKeyValue(doc, [key], v) == Ok(doc')
    requires inp.buf[q..] == FormatKey(key).value + (" = " + (FormatLiteral(v).value + ("\n" + more)))
    ensures AtLine(inp, after, q + |FormatKey(key).value| + 3 + |FormatLiteral(v).value| + 1)
    ensures ParseFrom(inp, st, doc, inTable) == ParseFrom(inp, after, doc', inTable)
  {
    hide ReadToken, ParseFrom, FormatKey, FormatLiteral, LiteralFits, WellKeyed, ParseNext, KeyPathOf, KeyFits;
    hide M.StepKeyValue, AtLine, Inv, Raw;
    KeyFitsMeans(key, inp.limits);
    var k := FormatKey(key).value;
    AtLineMeans(inp, st, q);
    LineReads(inp, st, q);
    var next;
    next, after := KeyValueReads(inp, q, key, v, more);
    KeyTextReadsBack(key);
    var t := Token(Key, q, q + |k|, false);
    RawIs(inp, t, k);
    AssignmentStep(inp, st, next, t, key, v, after, doc, doc', inTable);
    LineEnds(inp, after);
  }

  lemma RawIs(inp: Input, t: Token, text: string)
    requires t.start <= t.end <= |inp.buf| && inp.buf[t.start..t.end] == text
    ensures Raw(inp, t) == text
  {
  }

  lemma KeyFitsMeans(key: Segment, limits: Limits)
    requires KeyFits(key, limits)
    ensures FormatKey(key).Ok?
  {
  }

  lemma AssignmentStep(inp: Input, st: State, next: State, t: Token, key: Segment, v: M.Literal, after: State,
                       doc: M.State, doc': M.State, inTable: bool)
    requires Inv(inp, st) && ReadToken(inp, st) == Tok(next, t) && t.kind.Key? && Inv(inp, after)
    requires KeyPathOf(Raw(inp, t)) == Ok([key]) && ParseNext(inp, next) == Ok(Parsed(v, after))
    requires M.Valid(doc) && M.StepKeyValue(doc, [key], v) == Ok(doc')
    ensures ParseFrom(inp, st, doc, inTable) == ParseFrom(inp, after, doc', inTable)
  {
    hide ReadToken, ParseNext, KeyPathOf, M.StepKeyValue, Raw;
  }

  lemma KeyAtLine(inp: Input, q: nat, key: Segment, rest: string)
    requires Inv(inp, Start(q, true)) && KeyFits(key, inp.limits) && inp.buf[q..] == FormatKey(key).value + rest
    ensures AtToken(inp, Start(q, true)) && FormatKey(key).Ok? && q < |inp.buf|
  {
    hide FormatKey;
    KeyStarts(key);
    Advance(inp.buf, q, FormatKey(key).value, rest);
  }

  lemma FollowsLine(more: string)
    ensures Follows("\n" + more)
  {
  }

  /** A value at the top level leaves a line end due and nothing open. */
  lemma TopValueEnds(q: nat, at: State, end: nat)
    requires at == Start(q, true).(off := at.off, atLineStart := false, expectingValue := true, valueNoNewline := true)
    ensures AfterValue(at, end) == Start(end, false).(needLineEnd := true)
  {
  }

  // ----- Headers -----

  lemma BlankLine(inp: Input, q: nat)
    requires q + 1 < |inp.buf| && inp.buf[q] == '\n'
    ensures Inv(inp, Start(q, true)) && Inv(inp, Start(q + 1, true))
    ensures ReadToken(inp, Start(q, true)) == ReadToken(inp, Start(q + 1, true))
  {
    hide ReadToken;
    assert SpaceStep(inp.buf, Start(q, true)) == Start(q + 1, true);
    Skipper.SameSpaceSameRead(inp, Start(q, true), Start(q + 1, true));
  }

  function Bracket(isArray: bool, c: char): string {
    if isArray then [c, c] else [c]
  }

  lemma HeaderTurnReads(inp: Input, q: nat, path: KeyPath, isArray: bool, more: string)
    requires q <= |inp.buf| && FormatPath(path).Ok? && |FormatPath(path).value| <= inp.limits.maxKeyLength
    requires inp.buf[q..] == Bracket(isArray, '[') + (FormatPath(path).value + (Bracket(isArray, ']') + ("\n" + more)))
    ensures var end := q + |FormatPath(path).value| + (if isArray then 4 else 2);
      && Inv(inp, Start(q, true)) && end < |inp.buf| && inp.buf[end] == '\n'
      && HeaderTurn(inp, Start(q, true), isArray)
         == Emit(Start(end, false).(needLineEnd := true),
                 Token(if isArray then ArrayTableHeader else TableHeader, q, end, false))
  {
    hide FormatPath, HeaderEnd, ValidateHeaderKey, HeaderTurn;
    var p, width := FormatPath(path).value, if isArray then 2 else 1;
    HeaderPlaced(inp.buf[q..], isArray, p, more);
    HeaderReadsBack(inp.buf[q..], path, isArray);
    HeaderTurnIs(inp, q, isArray, |p|);
    assert inp.buf[q..][|p| + 2 * width] == inp.buf[q + |p| + 2 * width];
  }

  lemma HeaderPlaced(rest: string, isArray: bool, p: string, more: string)
    requires rest == Bracket(isArray, '[') + (p + (Bracket(isArray, ']') + ("\n" + more)))
    ensures var width := if isArray then 2 else 1;
      && Has(rest, width, p) && width + |p| + width < |rest| && rest[width + |p|] == ']'
      && (isArray ==> rest[width + |p| + 1] == ']') && rest[|p| + 2 * width] == '\n'
  {
    var width := if isArray then 2 else 1;
    var close := Bracket(isArray, ']') + ("\n" + more);
    assert rest[width..] == p + close;
    assert rest[width..width + |p|] == rest[width..][..|p|];
    assert rest[width..][|p|..] == close == rest[width + |p|..];
    assert close[0] == ']' && close[width] == '\n' && (isArray ==> close[1] == ']');
  }

  lemma HeaderTurnIs(inp: Input, q: nat, isArray: bool, n: nat)
    requires var width := if isArray then 2 else 1;
      && q + n + 2 * width <= |inp.buf| && n <= inp.limits.maxKeyLength
      && HeaderEnd(inp.buf[q..], width, isArray) == Ok(width + n)
      && ValidateHeaderKey(inp.buf[q..], width, width + n, true) == Ok(())
    ensures var end := q + n + (if isArray then 4 else 2);
      HeaderTurn(inp, Start(q, true), isArray)
      == Emit(Start(end, false).(needLineEnd := true),
              Token(if isArray then ArrayTableHeader else TableHeader, q, end, false))
  {
    hide HeaderEnd, ValidateHeaderKey;
  }

  lemma HeaderReads(inp: Input, q: nat, path: KeyPath, isArray: bool, more: string)
    requires q <= |inp.buf| && FormatPath(path).Ok? && |FormatPath(path).value| <= inp.limits.maxKeyLength
    requires inp.buf[q..] == Bracket(isArray, '[') + (FormatPath(path).value + (Bracket(isArray, ']') + ("\n" + more)))
    ensures var end := q + |FormatPath(path).value| + (if isArray then 4 else 2);
      && Inv(inp, Start(q, true)) && end < |inp.buf| && inp.buf[end] == '\n'
      && ReadToken(inp, Start(q, true))
         == Tok(Start(end, false).(needLineEnd := true),
                Token(if isArray then ArrayTableHeader else TableHeader, q, end, false))
  {
    hide FormatPath, HeaderTurn;
    var p := FormatPath(path).value;
    HeaderTurnReads(inp, q, path, isArray, more);
    HeaderStarts(inp, q, path, isArray, more);
    TurnKeepsInv(inp, Start(q, true));
  }

  /** The first bytes tell the two kinds of header apart. */
  lemma HeaderStarts(inp: Input, q: nat, path: KeyPath, isArray: bool, more: string)
    requires q <= |inp.buf| && FormatPath(path).Ok?
    requires inp.buf[q..] == Bracket(isArray, '[') + (FormatPath(path).value + (Bracket(isArray, ']') + ("\n" + more)))
    ensures q < |inp.buf| && inp.buf[q] == '[' && ("[[" <= inp.buf[q..] <==> isArray)
    ensures SkipSpaces(inp.buf, Start(q, true)) == Start(q, true)
  {
    hide FormatPath;
    var p, rest := FormatPath(path).value, inp.buf[q..];
    PathStarts(path);
    Advance(inp.buf, q, Bracket(isArray, '['), p + (Bracket(isArray, ']') + ("\n" + more)));
    assert rest[0] == '[';
    if isArray {
      assert rest[..2] == "[[";
    } else {
      assert rest[1] == p[0] && "[["[1] == '[';
    }
  }

  lemma PathStarts(path: KeyPath)
    requires FormatPath(path).Ok?
    ensures var p := FormatPath(path).value; p != "" && p[0] != '['
  {
    hide FormatKey;
    KeyStarts(path[0]);
  }

  lemma HeaderTextReadsBack(path: KeyPath, isArray: bool)
    requires FormatPath(path).Ok?
    ensures HeaderPath(Bracket(isArray, '[') + FormatPath(path).value + Bracket(isArray, ']'), if isArray then 2 else 1)
         == Ok(path)
  {
    hide FormatPath, KeyPathOf;
    var p, width := FormatPath(path).value, if isArray then 2 else 1;
    var raw := Bracket(isArray, '[') + p + Bracket(isArray, ']');
    PathReadsBack(path);
    assert raw[0] == '[' && raw[|raw| - 1] == ']';
    assert TrimSpace(raw) == raw;
    assert raw[width..|raw| - width] == p;
  }

  lemma HeaderStatementReads(inp: Input, st: State, q: nat, path: KeyPath, isArray: bool, more: string,
                             doc: M.State, doc': M.State, inTable: bool) returns (after: State)
    requires AtLine(inp, st, q) && FormatPath(path).Ok? && |FormatPath(path).value| <= inp.limits.maxKeyLength
    requires inp.buf[q..] == "\n" + (Bracket(isArray, '[') + (FormatPath(path).value + (Bracket(isArray, ']') + ("\n" + more))))
    requires M.Valid(doc) && (if isArray then M.StepArrayHeader(doc, path) else M.StepHeader(doc, path)) == Ok(doc')
    ensures AtLine(inp, after, q + 1 + |FormatPath(path).value| + (if isArray then 4 else 2) + 1)
    ensures ParseFrom(inp, st, doc, inTable) == ParseFrom(inp, after, doc', true)
  {
    hide ReadToken, ParseFrom, FormatPath, M.StepArrayHeader, M.StepHeader, HeaderPath, AtLine, Inv;
    var p := FormatPath(path).value;
    var open, close := Bracket(isArray, '['), Bracket(isArray, ']');
    var tail := open + (p + (close + ("\n" + more)));
    AtLineMeans(inp, st, q);
    Advance(inp.buf, q, "\n", tail);
    LineReads(inp, st, q);
    HeaderReads(inp, q + 1, path, isArray, more);
    BlankLine(inp, q);
    var end := q + 1 + |p| + (if isArray then 4 else 2);
    HeaderSlice(inp.buf, q + 1, open, p, close, "\n" + more);
    HeaderTextReadsBack(path, isArray);
    after := Start(end, false).(needLineEnd := true);
    HeaderStatementStep(inp, st, after, Token(if isArray then ArrayTableHeader else TableHeader, q + 1, end, false),
                        path, isArray, doc, doc', inTable);
    HeaderStateInv(inp, end);
    LineEnds(inp, after);
  }

  lemma HeaderStateInv(inp: Input, end: nat)
    requires end <= |inp.buf|
    ensures Inv(inp, Start(end, false).(needLineEnd := true))
  {
  }

  lemma HeaderSlice(buf: string, q: nat, open: string, p: string, close: string, more: string)
    requires q <= |buf| && buf[q..] == open + (p + (close + more))
    ensures q + |open| + |p| + |close| <= |buf| && buf[q..q + |open| + |p| + |close|] == open + p + close
  {
    var n := |open| + |p| + |close|;
    assert open + (p + (close + more)) == open + p + close + more;
    assert buf[q..q + n] == buf[q..][..n];
  }

  lemma HeaderStatementStep(inp: Input, st: State, after: State, t: Token, path: KeyPath, isArray: bool,
                            doc: M.State, doc': M.State, inTable: bool)
    requires Inv(inp, st) && ReadToken(inp, st) == Tok(after, t)
    requires if isArray then t.kind.ArrayTableHeader? else t.kind.TableHeader?
    requires HeaderPath(Raw(inp, t), if isArray then 2 else 1) == Ok(path)
    requires M.Valid(doc) && (if isArray then M.StepArrayHeader(doc, path) else M.StepHeader(doc, path)) == Ok(doc')
    ensures ParseFrom(inp, st, doc, inTable) == ParseFrom(inp, after, doc', true)
  {
    hide ReadToken, HeaderPath, M.StepArrayHeader, M.StepHeader, Raw;
  }

  // ----- Documents -----

  predicate WellKeyedStatement(s: M.Statement) {
    s.KeyValue? ==> WellKeyed(s.value)
  }

  /** The statements' text, read from a line start, goes through the table machine statement by statement. */
  lemma {:induction false} StatementsRead(inp: Input, st: State, q: nat, statements: seq<M.Statement>,
                                          doc: M.State, doc': M.State, inTable: bool)
    requires AtLine(inp, st, q) && FormatStatements(statements).Ok?
    requires inp.buf[q..] == FormatStatements(statements).value
    requires forall i :: 0 <= i < |statements| ==>
               StatementFits(statements[i], inp.limits) && WellKeyedStatement(statements[i])
    requires M.Valid(doc) && RunFrom(doc, statements) == Ok(doc')
    ensures ParseFrom(inp, st, doc, inTable) == Ok(doc')
    decreases |statements|
  {
    hide ReadToken, ParseFrom, FormatStatement, StatementFits, WellKeyedStatement, M.Step, AtLine;
    if statements == [] {
      DocumentEnds(inp, st, q, doc, inTable);
    } else {
      var s, rest := statements[0], statements[1..];
      var first, more := FormatStatement(s).value, FormatStatements(rest).value;
      AtLineMeans(inp, st, q);
      Advance(inp.buf, q, first, more);
      var mid := M.Step(doc, s).value;
      var after := StatementReads(inp, st, q, s, more, doc, mid, inTable);
      StatementsRead(inp, after, q + |first|, rest, mid, doc', inTable || !s.KeyValue?);
    }
  }

  lemma AtLineMeans(inp: Input, st: State, q: nat)
    requires AtLine(inp, st, q)
    ensures Inv(inp, st) && q <= |inp.buf|
  {
  }

  lemma DocumentEnds(inp: Input, st: State, q: nat, doc: M.State, inTable: bool)
    requires AtLine(inp, st, q) && inp.buf[q..] == "" && M.Valid(doc)
    ensures ParseFrom(inp, st, doc, inTable) == Ok(doc)
  {
    hide ReadToken;
    LineReads(inp, st, q);
  }

  lemma StatementReads(inp: Input, st: State, q: nat, s: M.Statement, more: string, doc: M.State, mid: M.State,
                       inTable: bool) returns (after: State)
    requires AtLine(inp, st, q) && FormatStatement(s).Ok? && inp.buf[q..] == FormatStatement(s).value + more
    requires StatementFits(s, inp.limits) && WellKeyedStatement(s) && M.Valid(doc) && M.Step(doc, s) == Ok(mid)
    ensures AtLine(inp, after, q + |FormatStatement(s).value|)
    ensures ParseFrom(inp, st, doc, inTable) == ParseFrom(inp, after, mid, inTable || !s.KeyValue?)
  {
    hide ReadToken, ParseFrom, FormatPath, FormatLiteral, FormatKey, AtLine, LiteralFits, WellKeyed;
    hide M.StepHeader, M.StepArrayHeader, M.StepKeyValue;
    match s
    case Header(path) =>
      var p := FormatPath(path).value;
      assert FormatStatement(s).value + more
          == "\n" + (Bracket(false, '[') + (p + (Bracket(false, ']') + ("\n" + more))));
      after := HeaderStatementReads(inp, st, q, path, false, more, doc, mid, inTable);
    case ArrayHeader(path) =>
      var p := FormatPath(path).value;
      assert FormatStatement(s).value + more
          == "\n" + (Bracket(true, '[') + (p + (Bracket(true, ']') + ("\n" + more))));
      after := HeaderStatementReads(inp, st, q, path, true, more, doc, mid, inTable);
    case KeyValue(key, value) =>
      OneKeyPath(key);
      var k, t := FormatKey(key[0]).value, FormatLiteral(value).value;
      assert FormatStatement(s).value + more == k + (" = " + (t + ("\n" + more)));
      after := AssignmentReads(inp, st, q, key[0], value, more, doc, mid, inTable);
  }

  lemma OneKeyPath(key: KeyPath)
    requires |key| == 1
    ensures key == [key[0]] && FormatPath(key) == FormatKey(key[0])
  {
    hide FormatKey;
  }

  // ----- The whole document -----

  lemma StatementValid(s: M.Statement, limits: Limits)
    requires StatementFits(s, limits) && FormatStatement(s).Ok?
    ensures Utf8.Valid(FormatStatement(s).value)
  {
    hide FormatPath, FormatLiteral, Utf8.Valid, LiteralFits, KeyFits;
    AsciiValid("\n[");
    AsciiValid("]\n");
    AsciiValid("\n[[");
    AsciiValid("]]\n");
    AsciiValid(" = ");
    AsciiValid("\n");
    match s
    case Header(path) =>
      PathValid(path);
      ThreeValid("\n[", FormatPath(path).value, "]\n");
    case ArrayHeader(path) =>
      PathValid(path);
      ThreeValid("\n[[", FormatPath(path).value, "]]\n");
    case KeyValue(key, value) =>
      PathValid(key);
      LiteralValid(value, limits, 0);
      ThreeValid(FormatPath(key).value, " = ", FormatLiteral(value).value);
      ValidConcat(FormatPath(key).value + " = " + FormatLiteral(value).value, "\n");
  }

  lemma {:induction false} StatementsValid(statements: seq<M.Statement>, limits: Limits)
    requires FormatStatements(statements).Ok?
    requires forall i :: 0 <= i < |statements| ==> StatementFits(statements[i], limits)
    ensures Utf8.Valid(FormatStatements(statements).value)
    decreases |statements|
  {
    hide FormatStatement, StatementFits, Utf8.Valid;
    if statements == [] {
      AsciiValid("");
    } else {
      StatementValid(statements[0], limits);
      StatementsValid(statements[1..], limits);
      ValidConcat(FormatStatement(statements[0]).value, FormatStatements(statements[1..]).value);
    }
  }

  /** A printed document starts with a line ending or a key, so never with a byte order mark. */
  lemma NoBomPrinted(statements: seq<M.Statement>)
    requires FormatStatements(statements).Ok? && forall i :: 0 <= i < |statements| ==> OneKey(statements[i])
    ensures !(BOM <= FormatStatements(statements).value)
  {
    hide FormatKey, FormatPath, FormatLiteral;
    var text := FormatStatements(statements).value;
    if statements != [] {
      var s := statements[0];
      if s.KeyValue? {
        OneKeyPath(s.key);
        KeyFirstByte(s.key[0]);
        assert text[0] == FormatKey(s.key[0]).value[0];
      } else {
        assert text[0] == '\n';
      }
    }
  }

  predicate OneKey(s: M.Statement) {
    s.KeyValue? ==> |s.key| == 1
  }

  lemma KeyFirstByte(key: Segment)
    requires FormatKey(key).Ok?
    ensures FormatKey(key).value != "" && FormatKey(key).value[0] as int < 0x80
  {
    hide FormatKey, Escaped;
    KeyIsBareOrQuoted(key);
  }

  /** Every assignment the printer makes has one key and a value with distinct keys. */
  lemma {:induction false} MapStatements(fields: seq<M.Field>, path: Path)
    requires forall i :: 0 <= i < |fields| ==> WellKeyed(fields[i].value)
    ensures forall s :: s in PrintMap(fields, path) ==> WellKeyedStatement(s) && OneKey(s)
    decreases fields, 2
  {
    ValueStatements(fields);
    TableStatements(fields, path);
  }

  lemma {:induction false} ValueStatements(fields: seq<M.Field>)
    requires forall i :: 0 <= i < |fields| ==> WellKeyed(fields[i].value)
    ensures forall s :: s in PrintValues(fields) ==> WellKeyedStatement(s) && OneKey(s)
    decreases |fields|
  {
    hide IsTableLike, WellKeyed;
    if fields != [] {
      ValueStatements(fields[1..]);
    }
  }

  lemma {:induction false} TableStatements(fields: seq<M.Field>, path: Path)
    requires forall i :: 0 <= i < |fields| ==> WellKeyed(fields[i].value)
    ensures forall s :: s in PrintTables(fields, path) ==> WellKeyedStatement(s) && OneKey(s)
    decreases fields, 1
  {
    hide WellKeyed;
    if fields != [] {
      OneTableStatements(fields[0], path);
      TableStatements(fields[1..], path);
    }
  }

  lemma {:induction false} OneTableStatements(f: M.Field, path: Path)
    requires WellKeyed(f.value)
    ensures forall s :: s in PrintTable(f, path) ==> WellKeyedStatement(s) && OneKey(s)
    decreases f, 0
  {
    match f.value
    case Scalar(_) =>
    case InlineTable(entries) => MapStatements(entries, path + [f.key]);
    case Array(items) =>
      if IsArrayOfTables(f.value) {
        ElementStatements(items, path + [f.key]);
      }
  }

  lemma {:induction false} ElementStatements(items: seq<M.Literal>, path: KeyPath)
    requires forall i :: 0 <= i < |items| ==> IsMap(items[i]) && WellKeyed(items[i])
    ensures forall s :: s in PrintElements(items, path) ==> WellKeyedStatement(s) && OneKey(s)
    decreases items, 0
  {
    if items != [] {
      assert IsMap(items[0]) && WellKeyed(items[0]);
      MapStatements(items[0].entries, path);
      ElementStatements(items[1..], path);
    }
  }

  /** Every line the printer writes for these fields is within the decoder's limits. */
  predicate PrintFits(fields: seq<M.Field>, limits: Limits) {
    forall i :: 0 <= i < |PrintMap(fields, [])| ==> StatementFits(PrintMap(fields, [])[i], limits)
  }

  /** Whatever statements are printed, when the table machine takes them the parser ends where their run ends. */
  lemma PrintedRunReadsBack(statements: seq<M.Statement>, inp: Input, maxDocumentSize: int)
    requires FormatStatements(statements) == Ok(inp.buf) && (maxDocumentSize > 0 ==> |inp.buf| <= maxDocumentSize)
    requires forall i :: 0 <= i < |statements| ==>
      StatementFits(statements[i], inp.limits) && WellKeyedStatement(statements[i]) && OneKey(statements[i])
    requires M.Run(statements).Ok?
    ensures ParseText(inp, maxDocumentSize) == Ok(M.Run(statements).value)
  {
    hide FormatStatements, ParseFrom, StatementFits, RunFrom, WellKeyedStatement, OneKey, M.RunTo;
    RunIsRunFrom(statements, |statements|);
    assert statements[..|statements|] == statements;
    StatementsValid(statements, inp.limits);
    NoBomPrinted(statements);
    OpenedPlain(inp, maxDocumentSize);
    assert inp.buf[0..] == inp.buf;
    StatementsRead(inp, Start(0, true), 0, statements, M.Initial, M.Run(statements).value, false);
  }

  /**
   The law of the printer and the parser. Take any tree of maps with distinct keys free of NUL, made of strings,
   `int64` numbers, booleans, arrays and maps; when the printer writes it and its lines fit the decoder's limits, the
   parser accepts the bytes, and the tables it returns hold exactly that tree.
   */
  lemma PrintedDocumentReadsBack(fields: seq<M.Field>, inp: Input, maxDocumentSize: int) returns (doc: M.State)
    requires WellKeyedFields(fields) && PrintFits(fields, inp.limits)
    requires FormatStatements(PrintMap(fields, [])) == Ok(inp.buf)
    requires maxDocumentSize > 0 ==> |inp.buf| <= maxDocumentSize
    ensures ParseText(inp, maxDocumentSize) == Ok(doc) && Represents(doc.nodes, 0, fields)
  {
    hide PrintMap, FormatStatements, ParseText, StatementFits, Represents, RunFrom, WellKeyedStatement, OneKey, WellKeyed;
    var statements := PrintMap(fields, []);
    doc := PrintedTreeIsRebuilt(fields);
    MapStatements(fields, []);
    assert forall i :: 0 <= i < |statements| ==> statements[i] in statements;
    PrintedRunReadsBack(statements, inp, maxDocumentSize);
  }

  lemma OpenedPlain(inp: Input, maxDocumentSize: int)
    requires Utf8.Valid(inp.buf) && !(BOM <= inp.buf) && (maxDocumentSize > 0 ==> |inp.buf| <= maxDocumentSize)
    ensures Opened(inp, maxDocumentSize) == Start(0, true) && AtLine(inp, Start(0, true), 0)
  {
  }
}
