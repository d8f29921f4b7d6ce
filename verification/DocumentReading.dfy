/** The parser's methods on a decoder and a builder: values, and `parseDocument` itself. */
module DocumentReading {
  import opened Results
  import opened Paths
  import opened Lexer
  import opened TokenMachine
  import opened DocumentReader
  import M = TableMachine
  import D = Decoder
  import B = DocumentParser

  /** What a parse returned and where it left the decoder. */
  ghost predicate Got(dec: D.Decoder, wanted: Result<Parsed, ReadFault>, r: Result<M.Literal, ReadFault>)
    reads dec, dec.containerStack
  {
    match wanted
    case Ok(p) => r == Ok(p.value) && dec.Valid() && dec.State() == p.st
    case Err(f) => r == Err(f)
  }

  method ParseRawValueToken(dec: D.Decoder, t: Token) returns (r: Result<M.Literal, ReadFault>)
    requires dec.Valid() && t.start <= t.end <= |dec.inp.buf|
    modifies dec, dec.containerStack
    ensures Got(dec, ParseToken(dec.inp, old(dec.State()), t), r)
    decreases |dec.inp.buf| - dec.off, 1
  {
    hide ScalarOf;
    if t.kind.ArrayStart? {
      r := ParseArrayValue(dec);
    } else if t.kind.InlineTableStart? {
      r := ParseInlineTableValue(dec);
    } else {
      r := ScalarOf(dec.inp, Raw(dec.inp, t), t.kind);
    }
  }

  method ParseNextValue(dec: D.Decoder) returns (r: Result<M.Literal, ReadFault>)
    requires dec.Valid()
    modifies dec, dec.containerStack
    ensures Got(dec, ParseNext(dec.inp, old(dec.State())), r)
    decreases |dec.inp.buf| - dec.off, 0
  {
    hide ReadToken, ParseToken;
    ghost var goal := ParseNext(dec.inp, dec.State());
    while true
      invariant dec.Valid() && old(dec.off) <= dec.off && goal == ParseNext(dec.inp, dec.State())
      decreases |dec.inp.buf| - dec.off
    {
      var out := dec.ReadToken();
      match out {
        case Failure(f) => return Err(Lexical(f));
        case EndOfInput => return Err(UnexpectedEnd);
        case Token(t) =>
          if !t.kind.Comment? {
            r := ParseRawValueToken(dec, t);
            return;
          }
      }
    }
  }

  method ParseArrayValue(dec: D.Decoder) returns (r: Result<M.Literal, ReadFault>)
    requires dec.Valid()
    modifies dec, dec.containerStack
    ensures Got(dec, ParseArray(dec.inp, old(dec.State()), []), r)
    decreases |dec.inp.buf| - dec.off, 0
  {
    hide ReadToken, ParseToken;
    var values := [];
    ghost var goal := ParseArray(dec.inp, dec.State(), []);
    while true
      invariant dec.Valid() && old(dec.off) <= dec.off && goal == ParseArray(dec.inp, dec.State(), values)
      decreases |dec.inp.buf| - dec.off
    {
      var out := dec.ReadToken();
      match out {
        case Failure(f) => return Err(Lexical(f));
        case EndOfInput => return Err(UnexpectedEnd);
        case Token(t) =>
          if t.kind.ArrayEnd? {
            return Ok(M.Array(values));
          }
          if !t.kind.Comment? {
            var v :- ParseRawValueToken(dec, t);
            values := values + [v];
          }
      }
    }
  }

  method ParseInlineTableValue(dec: D.Decoder) returns (r: Result<M.Literal, ReadFault>)
    requires dec.Valid()
    modifies dec, dec.containerStack
    ensures Got(dec, ParseInline(dec.inp, old(dec.State()), [], map[]), r)
    decreases |dec.inp.buf| - dec.off, 0
  {
    hide ReadToken, ParseToken, ParseDottedKey, ParseNext;
    var m: seq<M.Field> := [];
    var closed: M.Marks := map[];
    ghost var goal := ParseInline(dec.inp, dec.State(), m, closed);
    while true
      invariant dec.Valid() && old(dec.off) <= dec.off && goal == ParseInline(dec.inp, dec.State(), m, closed)
      decreases |dec.inp.buf| - dec.off
    {
      var out := dec.ReadToken();
      match out {
        case Failure(f) => return Err(Lexical(f));
        case EndOfInput => return Err(UnexpectedEnd);
        case Token(t) =>
          if t.kind.InlineTableEnd? {
            return Ok(M.InlineTable(m));
          }
          if t.kind.Key? {
            var key := ParseDottedKey(Raw(dec.inp, t));
            if key.Err? {
              return Err(BadPath(key.error));
            }
            var isClosed := B.ClosedInlinePrefix(key.value, closed, map[]);
            if isClosed {
              return Err(Redefinition(M.ExtendsInlineTable));
            }
            var v :- ParseNextValue(dec);
            var more := AssignInline(m, key.value, v);
            if more.Err? {
              return Err(Redefinition(more.error));
            }
            m, closed := more.value, M.MarkClosed(closed, key.value, v, map[]);
          } else if !t.kind.Comment? {
            return Err(UnexpectedToken);
          }
      }
    }
  }

  /** What one statement did to the document and the decoder. */
  ghost predicate Did(dec: D.Decoder, doc: B.Builder, wanted: Result<Assigned, ReadFault>, r: Result<(), ReadFault>)
    reads dec, dec.containerStack, doc
  {
    match wanted
    case Ok(a) => r == Ok(()) && dec.Valid() && dec.State() == a.st && doc.Valid() && doc.State() == a.doc
    case Err(f) => r == Err(f)
  }

  method ReadAssignment(dec: D.Decoder, doc: B.Builder, keyText: string) returns (r: Result<(), ReadFault>)
    requires dec.Valid() && doc.Valid()
    modifies dec, dec.containerStack, doc
    ensures Did(dec, doc, ParseAssignment(dec.inp, old(dec.State()), old(doc.State()), keyText), r)
  {
    hide KeyPathOf, ParseNext, M.StepKeyValue;
    var key := KeyPathOf(keyText);
    if key.Err? {
      return Err(BadPath(key.error));
    }
    if |key.value| > 1 {
      var check :=
        B.CheckDottedPrefixes(doc.declared, doc.closed, doc.currentPath + key.value, |doc.currentPath|, doc.epochs);
      if check.Err? {
        return Err(Redefinition(check.error));
      }
    }
    var v :- ParseNextValue(dec);
    var made := doc.AssignKey(key.value, v);
    return if made.Err? then Err(Redefinition(made.error)) else Ok(());
  }

  ghost predicate Opens(doc: B.Builder, wanted: Result<M.State, ReadFault>, r: Result<(), ReadFault>)
    reads doc
  {
    match wanted
    case Ok(made) => r == Ok(()) && doc.Valid() && doc.State() == made
    case Err(f) => r == Err(f)
  }

  function OpenedBy(doc: M.State, raw: string, isArray: bool): Result<M.State, ReadFault>
    requires M.Valid(doc)
  {
    var path :- HeaderPath(raw, if isArray then 2 else 1);
    Lifted(if isArray then M.StepArrayHeader(doc, path) else M.StepHeader(doc, path))
  }

  method OpenHeader(doc: B.Builder, raw: string, isArray: bool) returns (r: Result<(), ReadFault>)
    requires doc.Valid()
    modifies doc
    ensures Opens(doc, OpenedBy(old(doc.State()), raw, isArray), r)
  {
    hide HeaderPath, M.StepHeader, M.StepArrayHeader;
    var path :- HeaderPath(raw, if isArray then 2 else 1);
    var made;
    if isArray {
      made := doc.OpenArrayTable(path);
    } else {
      made := doc.OpenTable(path);
    }
    return if made.Err? then Err(Redefinition(made.error)) else Ok(());
  }

  /** `parseDocument`. */
  method ParseDocument(inp: Input, maxDocumentSize: int) returns (doc: B.Builder, r: Result<(), ReadFault>)
    ensures fresh(doc)
    ensures match ParseText(inp, maxDocumentSize)
            case Ok(made) => r == Ok(()) && doc.State() == made
            case Err(f) => r == Err(f)
  {
    hide ReadToken, ParseAssignment, HeaderPath, M.StepHeader, M.StepArrayHeader, Opened;
    var dec := new D.Decoder(inp, maxDocumentSize);
    doc := new B.Builder();
    var inTable := false;
    ghost var goal := ParseFrom(inp, dec.State(), doc.State(), false);
    assert ParseText(inp, maxDocumentSize) == goal;
    while true
      invariant fresh(dec) && fresh(dec.containerStack) && fresh(doc) && dec.inp == inp && dec.Valid() && doc.Valid()
      invariant goal == ParseFrom(inp, dec.State(), doc.State(), inTable)
      decreases |inp.buf| - dec.off
    {
      var out := dec.ReadToken();
      match out {
        case Failure(f) => return doc, Err(Lexical(f));
        case EndOfInput => return doc, Ok(());
        case Token(t) =>
          if t.kind.TableHeader? || t.kind.ArrayTableHeader? {
            r := OpenHeader(doc, Raw(inp, t), t.kind.ArrayTableHeader?);
            if r.Err? {
              return;
            }
            inTable := true;
          } else if t.kind.Key? {
            r := ReadAssignment(dec, doc, Raw(inp, t));
            if r.Err? {
              return;
            }
          } else if !t.kind.Comment? && !inTable {
            return doc, Err(UnexpectedToken);
          }
      }
    }
  }
}
