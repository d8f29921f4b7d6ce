/**
 The editor from a text to its edited bytes: load the entries, record edits, print. Each method is a short session with a
 document; together they show what the laws about entries, edits and splicing say of a text from end to end.
 */
module DocumentSessions {
  import opened Results
  import opened Bytes
  import opened Decimal
  import opened Paths
  import opened Utf8
  import opened StringParser
  import opened StringWriter
  import opened Integers
  import opened Lexer
  import opened TokenMachine
  import opened DocumentReader
  import opened DocumentText
  import opened DocumentValues
  import opened DocumentEditor
  import opened DocumentInsertions
  import opened PrintedKeys
  import opened PrintedText
  import opened PrintedValues
  import Skipper
  import Keys = DocumentKeys
  import Entries = DocumentEntries
  import Loading = DocumentLoading
  import OwnLinesOf = DocumentOwnLines

  /** Nothing has been asked of these entries but their values. */
  predicate SameSpans(a: seq<Entry>, b: seq<Entry>) {
    |a| == |b| && forall i :: 0 <= i < |a| ==> a[i].lineSpan == b[i].lineSpan && a[i].valueSpan == b[i].valueSpan
  }

  /** What a text is read as by the editor. */
  ghost function Read(inp: Input, maxDocumentSize: int): Result<Entries.Entries, ReadFault> {
    OpenedKeepsInv(inp, maxDocumentSize);
    Entries.ReadEntries(inp, Opened(inp, maxDocumentSize), "")
  }

  ghost predicate Regular(inp: Input, maxDocumentSize: int) {
    Read(inp, maxDocumentSize).Ok? && Read(inp, maxDocumentSize).value.regular
  }

  /** However it has been edited, a regular text is laid out. */
  lemma EditedIsLaidOut(inp: Input, maxDocumentSize: int, loaded: seq<Entry>, d: Edits)
    requires Regular(inp, maxDocumentSize) && SameSpans(loaded, d.entries)
    requires Entries.EntriesFor(inp.buf, Read(inp, maxDocumentSize).value.found, loaded)
    ensures LaidOutFrom(inp.buf, Lines(d), 0)
  {
    OpenedKeepsInv(inp, maxDocumentSize);
    Entries.RegularIsLaidOut(inp, maxDocumentSize, loaded, Lines(d));
  }

  /** However it has been edited, what is added to the end of a regular text starts a line. */
  lemma AddedToRegularStartsLine(inp: Input, maxDocumentSize: int, loaded: seq<Entry>, d: Edits, n: nat)
    returns (before: string, after: string)
    requires Regular(inp, maxDocumentSize) && SameSpans(loaded, d.entries)
    requires Entries.EntriesFor(inp.buf, Read(inp, maxDocumentSize).value.found, loaded)
    requires n < |PrintingOf(inp.buf, d)| && PrintingOf(inp.buf, d)[n].afterPath == ""
    ensures LaidOutFrom(inp.buf, Lines(d), 0)
    ensures Rendered(inp.buf, Lines(d), Inserts(inp.buf, d), 0)
         == before + AddedLine(PrintingOf(inp.buf, d)[n], Places(inp.buf, d), d.pending) + after
    ensures EndsLine(before)
  {
    hide Entries.EntriesFor, LaidOutFrom, OwnLines, Rendered, PrintingOf, AddedLine, EndsLine;
    EditedIsLaidOut(inp, maxDocumentSize, loaded, d);
    OpenedKeepsInv(inp, maxDocumentSize);
    OwnLinesOf.RegularOwnsLines(inp, maxDocumentSize, loaded, Lines(d));
    before, after := AppendedStartsLine(inp.buf, d, n);
  }

  /** `ParseDocument` of the editor. */
  method Load(inp: Input, maxDocumentSize: int, parse: Parser) returns (r: Result<Document, ReadFault>)
    ensures match Read(inp, maxDocumentSize)
            case Err(f) => r == Err(f)
            case Ok(read) =>
              && r.Ok? && fresh(r.value) && r.value.Valid() && r.value.raw == inp.buf && r.value.parse == parse
              && Entries.EntriesFor(inp.buf, read.found, r.value.entries)
              && r.value.Recorded() == Edits(r.value.entries, r.value.byPath, map[], {}, [], map[])
  {
    var entries :- Loading.ParseEntries(inp, maxDocumentSize);
    ghost var found := Read(inp, maxDocumentSize).value.found;
    forall i | 0 <= i < |entries| ensures entries[i].value.None? {
      assert Entries.EntryFor(inp.buf, found[i], entries[i]);
    }
    var doc := new Document(inp.buf, entries, parse);
    return Ok(doc);
  }

  // ----- A value replaced -----

  /** Entry `i` is the only one of its path. */
  predicate OnlyOfPath(entries: seq<Entry>, i: nat) {
    i < |entries| && forall j :: 0 <= j < |entries| && entries[j].pathKey == entries[i].pathKey ==> j == i
  }

  /** Whatever is written over an entry's value when a string is set reads back as that string. */
  lemma ReplacedStringReadsBack(e: Entry, s: string)
    requires FormatFor(e, DocumentEditor.Text(s)).Some?
    ensures StringValue(FormatFor(e, DocumentEditor.Text(s)).value) == Ok(s)
  {
    hide FormatStringLike, Quote, StringValue;
    FormatStringLikeRoundTrips(e.raw, s);
    QuoteRoundTrips(s);
  }

  lemma Sliced(raw: string, a: nat, b: nat, c: nat, d: nat)
    requires a <= b <= c <= d <= |raw|
    ensures raw[a..b] + raw[b..c] == raw[a..c] && raw[a..b] + raw[b..c] + raw[c..d] == raw[a..d] && raw[b..c] + raw[c..] == raw[b..]
  {
  }

  lemma {:induction false} OneReplaced(raw: string, lines: seq<Line>, from: nat, i: nat, text: string)
    requires LaidOutFrom(raw, lines, from) && i < |lines| && lines[i].edit == Replace(text)
    requires forall j :: 0 <= j < |lines| && j != i ==> lines[j].edit.Keep?
    ensures from <= lines[i].value.start <= lines[i].value.end <= |raw|
    ensures Rendered(raw, lines, [], from) == raw[from..lines[i].value.start] + text + raw[lines[i].value.end..]
    decreases i
  {
    var l, rest := lines[0], lines[1..];
    var end := l.line.end;
    assert Texts(InsertsBehind(raw, [], end)) == "";
    if i == 0 {
      UntouchedRenders(raw, rest, end);
      FirstReplaced(raw, l, from, text);
    } else {
      OneReplaced(raw, rest, end, i - 1, text);
      var v := rest[i - 1].value;
      Sliced(raw, from, l.line.start, end, v.start);
      Regrouped(raw[from..l.line.start], raw[l.line.start..end], raw[end..v.start], text, raw[v.end..]);
    }
  }

  lemma Regrouped(a: string, b: string, c: string, d: string, e: string)
    ensures a + b + ("" + (c + d + e)) == a + b + c + d + e
  {
  }

  lemma FirstReplaced(raw: string, l: Line, from: nat, text: string)
    requires from <= l.line.start < l.value.start < l.value.end <= l.line.end <= |raw|
    ensures raw[from..l.line.start] + (raw[l.line.start..l.value.start] + text + raw[l.value.end..l.line.end]) + ("" + raw[l.line.end..])
         == raw[from..l.value.start] + text + raw[l.value.end..]
  {
    Sliced(raw, from, l.line.start, l.value.start, l.value.start);
    Sliced(raw, l.value.start, l.value.end, l.line.end, l.line.end);
  }

  /** `out` is the text with the value of `e`, and nothing else, replaced; a string written there reads back. */
  predicate ReplacedIn(raw: string, e: Entry, value: Value, out: string) {
    var v := e.valueSpan;
    && FormatFor(e, value).Some? && v.start <= v.end <= |raw|
    && out == raw[..v.start] + FormatFor(e, value).value + raw[v.end..]
    && (value.Text? ==> StringValue(FormatFor(e, value).value) == Ok(value.s))
  }

  lemma ReplacedOutput(raw: string, d: Edits, i: nat, v: Value, text: string)
    requires d == Edits(d.entries, d.byPath, map[], {}, [], map[]) && Indexed(d) && OnlyOfPath(d.entries, i)
    requires FormatFor(d.entries[i], v) == Some(text)
    requires LaidOutFrom(raw, Lines(Replaced(d, d.entries[i].pathKey, v, text)), 0)
    ensures var d' := Replaced(d, d.entries[i].pathKey, v, text);
      ReplacedIn(raw, d.entries[i], v, Rendered(raw, Lines(d'), Inserts(raw, d'), 0))
  {
    hide FormatFor, LaidOutFrom, Rendered, StringValue;
    var e := d.entries[i];
    var d' := Replaced(d, e.pathKey, v, text);
    ReplacedLines(d, e.pathKey, v, text);
    assert Inserts(raw, d') == [];
    forall j | 0 <= j < |d.entries| && j != i ensures Lines(d')[j].edit.Keep? {
      assert d.entries[j].pathKey != e.pathKey;
    }
    OneReplaced(raw, Lines(d'), 0, i, text);
    if v.Text? {
      ReplacedStringReadsBack(e, v.s);
    }
    assert raw[0..e.valueSpan.start] == raw[..e.valueSpan.start];
  }

  lemma LastIsOnly(d: Edits, i: nat)
    requires Indexed(d) && OnlyOfPath(d.entries, i)
    ensures d.entries[i].pathKey in d.byPath && d.byPath[d.entries[i].pathKey] == i
  {
  }

  lemma ReplacedKeepsSpans(d: Edits, k: string, v: Value, text: string)
    requires k in d.byPath && d.byPath[k] < |d.entries|
    ensures SameSpans(d.entries, Replaced(d, k, v, text).entries)
  {
  }

  /**
   A session that sets one value. The output of a regular text is its bytes with exactly that value replaced, when its
   path occurs once; `Get` answers with the new value, and when that is a string what was written reads back as it.
   */
  method ReplaceValue(inp: Input, maxDocumentSize: int, parse: Parser, path: string, value: Value)
    returns (out: Option<string>, got: Option<Value>, ghost entries: seq<Entry>)
    ensures out.Some? ==> PathKey(path).Some? && Read(inp, maxDocumentSize).Ok? && got == Some(value)
    ensures out.Some? ==> Entries.EntriesFor(inp.buf, Read(inp, maxDocumentSize).value.found, entries)
    ensures out.Some? && Regular(inp, maxDocumentSize) ==>
      forall i: nat :: OnlyOfPath(entries, i) && entries[i].pathKey == PathKey(path).value ==>
        ReplacedIn(inp.buf, entries[i], value, out.value)
  {
    hide FormatFor, LaidOutFrom, Rendered, Replaced, Added, ReplacedIn, Sound, FormatValue, Inserts, Lines, Regular, View;
    out, got, entries := None, None, [];
    var loaded := Load(inp, maxDocumentSize, parse);
    if loaded.Err? {
      return;
    }
    var doc := loaded.value;
    entries := doc.entries;
    ghost var before := doc.Recorded();
    IndexedOf(before, parse);
    var ok := doc.Set(path, value);
    if !ok {
      return;
    }
    ghost var after := doc.Recorded();
    ghost var k := PathKey(path).value;
    var text := doc.Bytes();
    got := doc.Get(path);
    out := Some(text);
    if Regular(inp, maxDocumentSize) {
      forall i: nat | OnlyOfPath(entries, i) && entries[i].pathKey == k ensures ReplacedIn(inp.buf, entries[i], value, text) {
        LastIsOnly(before, i);
        var written := FormatFor(entries[i], value).value;
        ReplacedKeepsSpans(before, k, value, written);
        EditedIsLaidOut(inp, maxDocumentSize, entries, after);
        ReplacedOutput(inp.buf, before, i, value, written);
      }
    }
  }

  // ----- A line inserted behind an unfinished one -----

  lemma BareTrimmed(key: string)
    requires BareKey(key)
    ensures TrimSpace(key) == key
  {
    assert TrimLeft(key, SpaceByte) == key;
  }

  lemma BarePath(key: string)
    requires BareKey(key)
    ensures ParseDottedKey(key) == Ok([key]) && PathKey(key) == Some(key) && Keys.PathKeyOf(key) == Ok(key)
    ensures FormatPath([key]) == Ok(key)
  {
    BareTrimmed(key);
    PathReadsBack([key]);
  }

  lemma UnfinishedLineOpens(inp: Input, key: string, n: int, maxDocumentSize: int)
    requires BareKey(key) && inp.buf == key + (" = " + OfInt(n)) && (maxDocumentSize > 0 ==> |inp.buf| <= maxDocumentSize)
    ensures Opened(inp, maxDocumentSize) == Start(0, true) && Inv(inp, Start(0, true))
  {
    var digits := OfNat(if n < 0 then -n else n);
    assert forall i :: 0 <= i < |digits| ==> IsDigit(digits[i]);
    forall i | 0 <= i < |inp.buf| ensures inp.buf[i] as int < 0x80 {
    }
    AsciiValid(inp.buf);
    assert !(BOM <= inp.buf) by {
      assert inp.buf[0] == key[0] && BOM[0] as int >= 0x80;
    }
  }

  /** A number that ends the text is read as a number. */
  lemma LastNumberRead(inp: Input, at: State, n: int)
    requires AtValue(inp, at) && inp.buf[at.off..] == OfInt(n) && MIN_INT64 <= n <= MAX_INT64 && at.stack == []
    ensures ReadToken(inp, at) == Tok(AfterValue(at, |inp.buf|), Token(IntegerToken, at.off, |inp.buf|, false))
    ensures Inv(inp, AfterValue(at, |inp.buf|)) && ReadToken(inp, AfterValue(at, |inp.buf|)).Ended?
  {
    hide OfInt, Classify;
    var t := OfInt(n);
    IntegerClassified(n, inp.readsFloat);
    IntegerIsBare(n);
    BareStarts(t);
    FirstStopUnique(t, BareValueDelimiter, |t|);
    assert t[..|t|] == t && inp.buf[at.off] == inp.buf[at.off..][0] == t[0];
    assert ScanValue(t, inp) == Ok(ValueToken(IntegerToken, |t|, false));
    Skipper.ReadsAtToken(inp, at);
    TurnKeepsInv(inp, at);
  }

  /** `key = n` and nothing behind it is one entry, on the only line. */
  lemma UnfinishedLineRead(inp: Input, key: string, n: int, maxDocumentSize: int)
    requires BareKey(key) && |key| <= inp.limits.maxKeyLength && MIN_INT64 <= n <= MAX_INT64
    requires inp.buf == key + (" = " + OfInt(n)) && (maxDocumentSize > 0 ==> |inp.buf| <= maxDocumentSize)
    ensures Read(inp, maxDocumentSize)
         == Ok(Entries.Entries([Entries.Found(key, Span(0, |key|), Span(|key| + 3, |inp.buf|), IntegerToken)], true))
  {
    hide ReadToken, OfInt, PathKey, FormatKey, Inv, Keys.PathKeyOf;
    UnfinishedLineOpens(inp, key, n, maxDocumentSize);
    var st := Start(0, true);
    assert FormatKey(key) == Ok(key) by {
      BareWritten(key);
    }
    assert inp.buf[0..] == inp.buf && OfInt(n) + "" == OfInt(n);
    BarePath(key);
    NumberStarts(n);
    KeyStarts(key);
    FirstByte(inp, key);
    var next, at := EntryKeyRead(inp, st, key, OfInt(n), "");
    LastNumberRead(inp, at, n);
    assert Raw(inp, Token(Key, 0, |key|, false)) == key;
    OneEntryRead(inp, st, next, at, key);
  }

  lemma BareWritten(key: string)
    requires BareKey(key)
    ensures FormatKey(key) == Ok(key)
  {
  }

  lemma NumberStarts(n: int)
    ensures OfInt(n) != "" && OfInt(n)[0] !in "[]{},=# \t\n\r"
  {
    IntegerIsBare(n);
    BareStarts(OfInt(n));
  }

  lemma FirstByte(inp: Input, key: string)
    requires BareKey(key) && key <= inp.buf && Inv(inp, Start(0, true))
    ensures AtToken(inp, Start(0, true))
  {
    assert inp.buf[0] == key[0];
  }

  lemma OneEntryRead(inp: Input, st: State, next: State, at: State, key: string)
    requires Inv(inp, st) && Inv(inp, next) && Inv(inp, at) && |key| <= |inp.buf|
    requires ReadToken(inp, st) == Tok(next, Token(Key, 0, |key|, false)) && |key| > 0
    requires Raw(inp, Token(Key, 0, |key|, false)) == key && Keys.PathKeyOf(key) == Ok(key)
    requires ReadToken(inp, at) == ReadToken(inp, next) && at.off == |key| + 3
    requires ReadToken(inp, at) == Tok(AfterValue(at, |inp.buf|), Token(IntegerToken, at.off, |inp.buf|, false))
    requires at.stack == [] && ReadToken(inp, AfterValue(at, |inp.buf|)).Ended? && Inv(inp, AfterValue(at, |inp.buf|))
    ensures Entries.ReadEntries(inp, st, "")
         == Ok(Entries.Entries([Entries.Found(key, Span(0, |key|), Span(|key| + 3, |inp.buf|), IntegerToken)], true))
  {
    hide ReadToken, Raw, Keys.PathKeyOf;
    var after := AfterValue(at, |inp.buf|);
    Entries.TokenInside(inp, next);
    assert Entries.ReadValueSpan(inp, next)
        == Ok(Entries.ValueSpan(Span(|key| + 3, |inp.buf|), IntegerToken, after));
    assert Entries.ReadEntry(inp, next, "", Token(Key, 0, |key|, false))
        == Ok(Entries.FoundAt(Entries.Found(key, Span(0, |key|), Span(|key| + 3, |inp.buf|), IntegerToken), after));
    assert Entries.ReadEntries(inp, after, "") == Ok(Entries.Entries([], true));
    Loading.EntriesUnfold(inp, st, "");
    var found := Entries.Found(key, Span(0, |key|), Span(|key| + 3, |inp.buf|), IntegerToken);
    assert [found] + [] == [found];
  }

  lemma UnfinishedEntry(inp: Input, key: string, n: int)
    requires BareKey(key) && inp.buf == key + (" = " + OfInt(n))
    ensures LineStart(inp.buf, 0) == 0 && LineEnd(inp.buf, |inp.buf|) == |inp.buf|
    ensures inp.buf[|inp.buf| - 1] != '\n' && |key| + 3 < |inp.buf|
  {
    var digits := OfNat(if n < 0 then -n else n);
    assert OfInt(n) != "" && inp.buf[|inp.buf| - 1] == digits[|digits| - 1];
    assert IsDigit(digits[|digits| - 1]);
  }

  /** One line that goes to the end of the text, and one insertion behind it. */
  lemma GluedBehind(raw: string, l: Line, text: string)
    requires 0 == l.line.start < l.value.start < l.value.end == l.line.end == |raw| && l.edit.Keep?
    ensures LaidOutFrom(raw, [l], 0) && Rendered(raw, [l], [Op(|raw|, |raw|, text, 0)], 0) == raw + text
  {
    var op := Op(|raw|, |raw|, text, 0);
    assert [l][1..] == [] && [op][1..] == [];
    assert InsertsAt([op], |raw|) == [op];
    assert Texts([op]) == text + "" == text;
    assert raw[|raw|..] == "" && raw[0..l.line.start] + raw[l.line.start..|raw|] == raw;
    assert Rendered(raw, [], [op], |raw|) == text;
  }

  lemma NumberLine(key: string, m: int)
    requires BareKey(key)
    ensures FormatKeyValue([key], Other(IntegerKind, Some(OfInt(m)))) == Some(key + " = " + OfInt(m) + "\n")
  {
    hide OfInt;
    BarePath(key);
  }

  /** What the records of the session print. */
  lemma GluedRecords(raw: string, d: Edits, e: Entry, ins: Insertion, v: Value, line: string)
    requires d.entries == [e] && d.byPath == map[e.pathKey := 0] && e.pathKey != ""
    requires d == Edits(d.entries, d.byPath, map[], {}, [ins], map[ins.pathKey := v])
    requires ins.afterPath == e.pathKey && FormatKeyValue(ins.path, v) == Some(line)
    requires e.lineSpan == Span(0, |raw|) && 0 < e.valueSpan.start < e.valueSpan.end == |raw|
    ensures LaidOutFrom(raw, Lines(d), 0) && Rendered(raw, Lines(d), Inserts(raw, d), 0) == raw + line
  {
    hide FormatKeyValue;
    var l := Line(e.lineSpan, e.valueSpan, Keep);
    assert Lines(d) == [l];
    assert LineOps([l], 0) == [] by {
      assert [l][1..] == [];
    }
    var a := Places(raw, d);
    assert a.lineEnds == [|raw|];
    assert [ins][..0] == [] && InsertionOps([], a, d.pending, 0) == [];
    assert Inserts(raw, d) == [Op(|raw|, |raw|, line, 0)];
    GluedBehind(raw, l, line);
  }

  /**
   A text that is one assignment without a line ending, and another put behind it with `InsertAfter`: the output has both on
   one line.
   */
  method InsertBehindUnfinished(inp: Input, maxDocumentSize: int, key: string, n: int, other: string, m: int)
    returns (out: string)
    requires BareKey(key) && |key| <= inp.limits.maxKeyLength && MIN_INT64 <= n <= MAX_INT64 && BareKey(other)
    requires inp.buf == key + (" = " + OfInt(n)) && (maxDocumentSize > 0 ==> |inp.buf| <= maxDocumentSize)
    ensures out == key + (" = " + OfInt(n)) + (other + " = " + OfInt(m) + "\n")
  {
    hide Entries.ReadEntries, OfInt, ParseDottedKey, FormatKeyValue, Lines, Inserts, LaidOutFrom, Rendered, LineStart, LineEnd;
    UnfinishedLineRead(inp, key, n, maxDocumentSize);
    UnfinishedEntry(inp, key, n);
    BarePath(key);
    BarePath(other);
    NumberLine(other, m);
    var loaded := Load(inp, maxDocumentSize, s => None);
    var doc := loaded.value;
    ghost var e := doc.entries[0];
    assert Entries.EntryFor(inp.buf, Read(inp, maxDocumentSize).value.found[0], e);
    assert doc.entries == [e] && doc.byPath == map[key := 0] by {
      OneIndexed(doc.Recorded(), e);
    }
    var v := Other(IntegerKind, Some(OfInt(m)));
    var ok := doc.InsertAfter(key, other, v);
    GluedRecords(inp.buf, doc.Recorded(), e, Insertion(key, other, [other]), v, other + " = " + OfInt(m) + "\n");
    out := doc.Bytes();
  }

  lemma OneIndexed(d: Edits, e: Entry)
    requires Indexed(d) && |d.entries| == 1 && d.entries[0] == e
    ensures d.entries == [e] && d.byPath == map[e.pathKey := 0]
  {
    assert d.byPath.Keys == {e.pathKey};
  }

  // ----- A new key set twice -----

  lemma TwiceRecords(d: Edits, ins: Insertion, v: Value, line: string)
    requires d == Edits([], map[], map[], {}, [ins, ins], map[ins.pathKey := v])
    requires ins.afterPath == "" && FormatKeyValue(ins.path, v) == Some(line)
    ensures LaidOutFrom("", Lines(d), 0) && Rendered("", Lines(d), Inserts("", d), 0) == line + line
  {
    hide FormatKeyValue;
    var a, both := Places("", d), [ins, ins];
    var first := Op(0, 0, line, 0);
    var second := Op(0, 0, line, 1);
    assert Lines(d) == [] && "" + line == line;
    assert both[..1] == [ins] && [ins][..0] == [] && InsertionOps([], a, d.pending, 0) == [];
    assert InsertionOps([ins], a, d.pending, 0) == [first];
    assert InsertionOps(both, a, d.pending, 0) == [first, second];
    assert [first, second][1..] == [second] && [second][1..] == [];
    assert InsertsAt([second], 0) == [second] + [];
    assert InsertsAt([first, second], 0) == [first, second];
    assert Texts([second]) == line + "" == line;
    assert Texts([first, second]) == line + line;
  }

  /** A key set twice in an empty document is printed twice: the output defines one key two times. */
  method SetTwice(key: string, m: int) returns (out: string)
    requires BareKey(key)
    ensures out == (key + " = " + OfInt(m) + "\n") + (key + " = " + OfInt(m) + "\n")
  {
    hide OfInt, ParseDottedKey, FormatKeyValue, Lines, Inserts, LaidOutFrom, Rendered;
    BarePath(key);
    NumberLine(key, m);
    var doc := new Document("", [], s => None);
    assert doc.byPath == map[];
    var v := Other(IntegerKind, Some(OfInt(m)));
    var first := doc.Set(key, v);
    var second := doc.Set(key, v);
    var ins := Insertion("", key, [key]);
    assert doc.Recorded().insertions == [ins, ins] && doc.Recorded().pending == map[key := v];
    TwiceRecords(doc.Recorded(), ins, v, key + " = " + OfInt(m) + "\n");
    out := doc.Bytes();
  }
}
