/** `ParseDocument` of the editor: the loop over tokens that fills the list of entries. */
module DocumentLoading {
  import opened Results
  import opened Lexer
  import opened TokenMachine
  import opened DocumentReader
  import opened DocumentKeys
  import opened DocumentText
  import opened DocumentEntries
  import Editor = DocumentEditor
  import D = Decoder

  ghost predicate GotSpan(dec: D.Decoder, wanted: Result<ValueSpan, ReadFault>, r: Result<Span, ReadFault>,
                          kind: TokenKind)
    reads dec, dec.containerStack
  {
    match wanted
    case Ok(v) => r == Ok(v.span) && kind == v.kind && dec.Valid() && dec.State() == v.st
    case Err(f) => r == Err(f)
  }

  /** `readValue`. */
  method ReadValue(dec: D.Decoder) returns (r: Result<Span, ReadFault>, kind: TokenKind)
    requires dec.Valid()
    modifies dec, dec.containerStack
    ensures GotSpan(dec, ReadValueSpan(dec.inp, old(dec.State())), r, kind)
  {
    hide ReadToken, BracketSpan;
    kind := Comment;
    ghost var goal := ReadValueSpan(dec.inp, dec.State());
    while true
      invariant dec.Valid() && goal == ReadValueSpan(dec.inp, dec.State())
      decreases |dec.inp.buf| - dec.off
    {
      TokenInside(dec.inp, dec.State());
      var out := dec.ReadToken();
      match out {
        case Failure(f) => return Err(Lexical(f)), kind;
        case EndOfInput => return Err(UnexpectedEnd), kind;
        case Token(t) =>
          if t.kind.ArrayStart? {
            r := ReadBrackets(dec, 1, 0, t);
            return r, t.kind;
          }
          if t.kind.InlineTableStart? {
            r := ReadBrackets(dec, 0, 1, t);
            return r, t.kind;
          }
          if !t.kind.Comment? {
            return Ok(Span(t.start, t.end)), t.kind;
          }
      }
    }
  }

  /** The tokens of a bracketed value, counted until both kinds of bracket are closed. */
  method ReadBrackets(dec: D.Decoder, arrays: int, inlines: int, open: Token) returns (r: Result<Span, ReadFault>)
    requires dec.Valid() && open.start < open.end <= dec.off
    modifies dec, dec.containerStack
    ensures GotSpan(dec, BracketSpan(dec.inp, old(dec.State()), arrays, inlines, open.start, open.end, open.kind), r, open.kind)
  {
    hide ReadToken;
    var arrayDepth, inlineDepth, end := arrays, inlines, open.end;
    ghost var goal := BracketSpan(dec.inp, dec.State(), arrays, inlines, open.start, end, open.kind);
    while arrayDepth > 0 || inlineDepth > 0
      invariant dec.Valid() && open.start < end <= dec.off
      invariant goal == BracketSpan(dec.inp, dec.State(), arrayDepth, inlineDepth, open.start, end, open.kind)
      decreases |dec.inp.buf| - dec.off
    {
      TokenInside(dec.inp, dec.State());
      var out := dec.ReadToken();
      match out {
        case Failure(f) => return Err(Lexical(f));
        case EndOfInput => return Err(UnexpectedEnd);
        case Token(t) =>
          end := t.end;
          match t.kind {
            case ArrayStart => arrayDepth := arrayDepth + 1;
            case ArrayEnd => arrayDepth := arrayDepth - 1;
            case InlineTableStart => inlineDepth := inlineDepth + 1;
            case InlineTableEnd => inlineDepth := inlineDepth - 1;
            case _ =>
          }
      }
    }
    return Ok(Span(open.start, end));
  }

  /** What the entries still to be read add to those found. */
  ghost function Grown(done: seq<Found>, rest: Result<Entries, ReadFault>): Result<seq<Found>, ReadFault> {
    match rest
    case Ok(e) => Ok(done + e.found)
    case Err(f) => Err(f)
  }

  lemma GrownByOne(done: seq<Found>, f: Found, rest: Result<Entries, ReadFault>, regular: bool)
    ensures Grown(done + [f], rest)
         == Grown(done, if rest.Ok? then Ok(Entries([f] + rest.value.found, regular)) else Err(rest.error))
  {
    if rest.Ok? {
      assert done + [f] + rest.value.found == done + ([f] + rest.value.found);
    }
  }

  /** The entry of a key token: its path, its value, and the line they are on. */
  method ParseEntry(dec: D.Decoder, interner: PathInterner, currentPathKey: string, t: Token)
    returns (r: Result<Editor.Entry, ReadFault>, ghost f: Found)
    requires dec.Valid() && interner.Valid() && t.start < t.end <= dec.off
    modifies dec, dec.containerStack, interner
    ensures interner.Valid()
    ensures match ReadEntry(dec.inp, old(dec.State()), currentPathKey, t)
            case Ok(one) =>
              r.Ok? && f == one.entry && EntryFor(dec.inp.buf, f, r.value) && dec.Valid() && dec.State() == one.st
            case Err(fault) => r == Err(fault)
  {
    hide ReadValueSpan, KeyOf, PathKeyOf, EntryFor, LineStart, LineEnd;
    f := Found("", Span(0, 0), Span(0, 0), Comment);
    var buf := dec.inp.buf;
    var key := interner.ParseDottedPathKey(Raw(dec.inp, t));
    KeyOfIs(Raw(dec.inp, t));
    if key.Err? {
      return Err(BadPath(key.error)), f;
    }
    var span, kind := ReadValue(dec);
    if span.Err? {
      return Err(span.error), f;
    }
    var pathKey := interner.JoinPathKeys(currentPathKey, key.value);
    var line := LineSpan(buf, t.start, span.value.end);
    f := Found(pathKey, Span(t.start, t.end), span.value, kind);
    var entry := Editor.Entry(pathKey, buf[span.value.start..span.value.end], span.value, line, KindFrom(kind), None);
    EntryIs(buf, f, entry);
    return Ok(entry), f;
  }

  method ParseEntries(inp: Input, maxDocumentSize: int) returns (r: Result<seq<Editor.Entry>, ReadFault>)
    ensures Inv(inp, Opened(inp, maxDocumentSize))
    ensures match ReadEntries(inp, Opened(inp, maxDocumentSize), "")
            case Ok(read) => r.Ok? && EntriesFor(inp.buf, read.found, r.value)
            case Err(f) => r == Err(f)
  {
    hide ReadToken, ReadEntry, KeyOf, PathKeyOf, Opened, EntryFor, EntriesFor, Grown, Inv;
    OpenedKeepsInv(inp, maxDocumentSize);
    var dec := new D.Decoder(inp, maxDocumentSize);
    var interner := new PathInterner();
    var entries: seq<Editor.Entry> := [];
    var currentPathKey := "";
    ghost var done: seq<Found> := [];
    ghost var goal := ReadEntries(inp, dec.State(), "");
    GrownFromNothing(goal);
    NoEntriesYet(inp.buf);
    while true
      invariant fresh(dec) && fresh(dec.containerStack) && fresh(interner) && dec.inp == inp && dec.Valid() && interner.Valid()
      invariant EntriesFor(inp.buf, done, entries)
      invariant Grown([], goal) == Grown(done, ReadEntries(inp, dec.State(), currentPathKey))
      decreases |inp.buf| - dec.off
    {
      ghost var before := dec.State();
      TokenInside(inp, before);
      EntriesUnfold(inp, before, currentPathKey);
      var out := dec.ReadToken();
      match out {
        case Failure(f) =>
          GrownFault(done, Lexical(f));
          return Err(Lexical(f));
        case EndOfInput =>
          GrownEnd(done);
          return Ok(entries);
        case Token(t) =>
          if t.kind.TableHeader? || t.kind.ArrayTableHeader? {
            var text := HeaderText(Raw(inp, t), if t.kind.ArrayTableHeader? then 2 else 1);
            var key := interner.ParseDottedPathKey(text);
            KeyOfIs(text);
            if key.Err? {
              GrownFault(done, BadPath(key.error));
              return Err(BadPath(key.error));
            }
            currentPathKey := key.value;
          } else if t.kind.Key? {
            var entry, f := ParseEntry(dec, interner, currentPathKey, t);
            if entry.Err? {
              GrownFault(done, entry.error);
              return Err(entry.error);
            }
            ghost var rest := ReadEntries(inp, dec.State(), currentPathKey);
            GrownByOne(done, f, rest, rest.Ok? && rest.value.regular && dec.State().stack == []);
            OneEntryMore(inp.buf, done, entries, f, entry.value);
            entries, done := entries + [entry.value], done + [f];
          } else if !t.kind.Comment? {
            if currentPathKey == "" {
              GrownFault(done, UnexpectedToken);
              return Err(UnexpectedToken);
            }
            GrownIrregular(done, ReadEntries(inp, dec.State(), currentPathKey));
          }
      }
    }
  }

  /** One token of the editor's parser. */
  lemma EntriesUnfold(inp: Input, st: State, current: string)
    requires Inv(inp, st)
    ensures ReadEntries(inp, st, current)
         == match ReadToken(inp, st)
            case Stopped(_, f) => Err(Lexical(f))
            case Ended(_) => Ok(Entries([], true))
            case Tok(next, t) =>
              if t.kind.Comment? then ReadEntries(inp, next, current)
              else if t.kind.TableHeader? || t.kind.ArrayTableHeader? then
                var key :- KeyOf(HeaderText(Raw(inp, t), if t.kind.ArrayTableHeader? then 2 else 1));
                ReadEntries(inp, next, key)
              else if t.kind.Key? then
                var one :- ReadEntry(inp, next, current, t);
                var rest :- ReadEntries(inp, one.st, current);
                Ok(Entries([one.entry] + rest.found, rest.regular && one.st.stack == []))
              else if current == "" then Err(UnexpectedToken)
              else
                var rest :- ReadEntries(inp, next, current);
                Ok(Entries(rest.found, false))
  {
    hide ReadToken, ReadEntry, KeyOf, Raw, HeaderText;
  }

  lemma GrownFromNothing(goal: Result<Entries, ReadFault>)
    ensures Grown([], goal) == if goal.Ok? then Ok(goal.value.found) else Err(goal.error)
  {
    if goal.Ok? {
      assert [] + goal.value.found == goal.value.found;
    }
  }

  lemma GrownFault(done: seq<Found>, f: ReadFault)
    ensures Grown(done, Err(f)) == Err(f)
  {
  }

  lemma GrownEnd(done: seq<Found>)
    ensures Grown(done, Ok(Entries([], true))) == Ok(done)
  {
    assert done + [] == done;
  }

  lemma GrownIrregular(done: seq<Found>, rest: Result<Entries, ReadFault>)
    ensures Grown(done, rest) == Grown(done, if rest.Ok? then Ok(Entries(rest.value.found, false)) else Err(rest.error))
  {
  }

  lemma NoEntriesYet(buf: string)
    ensures EntriesFor(buf, [], [])
  {
  }

  lemma OneEntryMore(buf: string, found: seq<Found>, entries: seq<Editor.Entry>, f: Found, e: Editor.Entry)
    requires EntriesFor(buf, found, entries) && EntryFor(buf, f, e)
    ensures EntriesFor(buf, found + [f], entries + [e])
  {
    hide EntryFor;
  }

  lemma KeyOfIs(text: string)
    ensures KeyOf(text) == match PathKeyOf(text)
                           case Ok(k) => Ok(k)
                           case Err(f) => Err(BadPath(f))
  {
  }

  lemma EntryIs(buf: string, f: Found, e: Editor.Entry)
    requires f.key.start <= f.value.start <= f.value.end <= |buf|
    requires e == Editor.Entry(f.pathKey, buf[f.value.start..f.value.end], f.value,
                               Span(LineStart(buf, f.key.start), LineEnd(buf, f.value.end)), KindFrom(f.kind), None)
    ensures EntryFor(buf, f, e)
  {
  }
}
