/**
 `parseDocument` from bytes on: tokens make values, values and headers make statements, and each statement goes to the
 table-definition machine as it is read. The functions say what is read; the methods are the parser.
 */
module DocumentReader {
  import opened Results
  import opened Paths
  import opened StringParser
  import opened Integers
  import opened DateTimes
  import opened Lexer
  import opened TokenMachine
  import M = TableMachine

  datatype ReadFault =
    | Lexical(lexical: Lexer.Fault)
    | Redefinition(table: M.Fault)
    | BadPath(key: KeyFault)
    | BadText(text: StringFault)
    | UnexpectedToken
    | UnexpectedEnd

  /** A value, and the decoder behind it. */
  datatype Parsed = Parsed(value: M.Literal, st: State)

  function Raw(inp: Input, t: Token): string
    requires t.start <= t.end <= |inp.buf|
  {
    inp.buf[t.start..t.end]
  }

  // ----- Inline tables -----

  function IndexOf(entries: seq<M.Field>, k: Segment): (r: Option<nat>)
    ensures r.Some? ==> r.value < |entries| && entries[r.value].key == k
    ensures r.None? ==> forall i :: 0 <= i < |entries| ==> entries[i].key != k
  {
    if entries == [] then None
    else if entries[0].key == k then Some(0)
    else
      match IndexOf(entries[1..], k)
      case None => None
      case Some(i) => Some(i + 1)
  }

  /** `assignUniqueRaw` in a map that is still a value of its own. */
  function AssignInline(entries: seq<M.Field>, key: KeyPath, value: M.Literal): Result<seq<M.Field>, M.Fault>
    decreases |key|
  {
    match IndexOf(entries, key[0])
    case None =>
      if |key| == 1 then Ok(entries + [M.Field(key[0], value)])
      else
        var sub :- AssignInline([], key[1..], value);
        Ok(entries + [M.Field(key[0], M.InlineTable(sub))])
    case Some(i) =>
      if |key| == 1 then Err(M.DuplicateKey)
      else if !entries[i].value.InlineTable? then Err(M.RedefinesValueAsTable)
      else
        var sub :- AssignInline(entries[i].value.entries, key[1..], value);
        Ok(entries[i := M.Field(key[0], M.InlineTable(sub))])
  }

  // ----- Values -----

  function ScalarOf(inp: Input, raw: string, kind: TokenKind): Result<M.Literal, ReadFault> {
    match kind
    case StringValueToken =>
      (match StringValue(raw)
       case Ok(s) => Ok(M.Scalar(M.Text(s)))
       case Err(f) => Err(BadText(f)))
    case IntegerToken =>
      (match IntegerLiteral(raw)
       case Some(n) => Ok(M.Scalar(M.Integer(n)))
       case None => Err(UnexpectedToken))
    case BoolToken =>
      if raw == "true" then Ok(M.Scalar(M.Boolean(true)))
      else if raw == "false" then Ok(M.Scalar(M.Boolean(false)))
      else Err(UnexpectedToken)
    case FloatToken => Ok(M.Scalar(M.Unread(raw)))
    case DatetimeToken => if ParseDateTime(raw).Some? then Ok(M.Scalar(M.Unread(raw))) else Err(UnexpectedToken)
    case _ => Err(UnexpectedToken)
  }

  /** `parseRawValueToken`, in the state after the token. */
  function ParseToken(inp: Input, st: State, t: Token): (r: Result<Parsed, ReadFault>)
    requires Inv(inp, st) && t.start <= t.end <= |inp.buf|
    ensures r.Ok? ==> Inv(inp, r.value.st) && st.off <= r.value.st.off
    decreases |inp.buf| - st.off, 1
  {
    if t.kind.ArrayStart? then ParseArray(inp, st, [])
    else if t.kind.InlineTableStart? then ParseInline(inp, st, [], map[])
    else
      match ScalarOf(inp, Raw(inp, t), t.kind)
      case Ok(v) => Ok(Parsed(v, st))
      case Err(f) => Err(f)
  }

  /** `parseNextValue`. */
  function ParseNext(inp: Input, st: State): (r: Result<Parsed, ReadFault>)
    requires Inv(inp, st)
    ensures r.Ok? ==> Inv(inp, r.value.st) && st.off < r.value.st.off
    decreases |inp.buf| - st.off, 0
  {
    match ReadToken(inp, st)
    case Stopped(_, f) => Err(Lexical(f))
    case Ended(_) => Err(UnexpectedEnd)
    case Tok(next, t) => if t.kind.Comment? then ParseNext(inp, next) else ParseToken(inp, next, t)
  }

  /** `parseArrayValue`, with `items` read so far. */
  function ParseArray(inp: Input, st: State, items: seq<M.Literal>): (r: Result<Parsed, ReadFault>)
    requires Inv(inp, st)
    ensures r.Ok? ==> Inv(inp, r.value.st) && st.off < r.value.st.off
    decreases |inp.buf| - st.off, 0
  {
    match ReadToken(inp, st)
    case Stopped(_, f) => Err(Lexical(f))
    case Ended(_) => Err(UnexpectedEnd)
    case Tok(next, t) =>
      if t.kind.Comment? then ParseArray(inp, next, items)
      else if t.kind.ArrayEnd? then Ok(Parsed(M.Array(items), next))
      else
        var v :- ParseToken(inp, next, t);
        ParseArray(inp, v.st, items + [v.value])
  }

  /** `parseInlineTableValue`, with `entries` read so far and the paths that are closed. */
  function ParseInline(inp: Input, st: State, entries: seq<M.Field>, closed: M.Marks): (r: Result<Parsed, ReadFault>)
    requires Inv(inp, st)
    ensures r.Ok? ==> Inv(inp, r.value.st) && st.off < r.value.st.off
    decreases |inp.buf| - st.off, 0
  {
    match ReadToken(inp, st)
    case Stopped(_, f) => Err(Lexical(f))
    case Ended(_) => Err(UnexpectedEnd)
    case Tok(next, t) =>
      if t.kind.Comment? then ParseInline(inp, next, entries, closed)
      else if t.kind.InlineTableEnd? then Ok(Parsed(M.InlineTable(entries), next))
      else if !t.kind.Key? then Err(UnexpectedToken)
      else
        match ParseDottedKey(Raw(inp, t)) {
          case Err(f) => Err(BadPath(f))
          case Ok(key) =>
            if M.ClosedPrefix(key, closed, map[]) then Err(Redefinition(M.ExtendsInlineTable))
            else
              var v :- ParseNext(inp, next);
              match AssignInline(entries, key, v.value) {
                case Err(f) => Err(Redefinition(f))
                case Ok(more) => ParseInline(inp, v.st, more, M.MarkClosed(closed, key, v.value, map[]))
              }
        }
  }

  // ----- Documents -----

  /** `trimHeaderKey`. */
  function HeaderText(raw: string, width: nat): string
    requires width > 0
  {
    var t := TrimSpace(raw);
    if |t| >= 2 * width then TrimSpace(t[width..|t| - width]) else ""
  }

  function HeaderPath(raw: string, width: nat): (r: Result<Path, ReadFault>)
    requires width > 0
    ensures r.Ok? ==> r.value != []
  {
    match KeyPathOf(HeaderText(raw, width))
    case Err(f) => Err(BadPath(f))
    case Ok(path) => Ok(path)
  }

  function Lifted<T>(r: Result<T, M.Fault>): Result<T, ReadFault> {
    match r
    case Ok(v) => Ok(v)
    case Err(f) => Err(Redefinition(f))
  }

  /** What a dotted key is checked for before its value is read. */
  function CheckKey(doc: M.State, key: KeyPath): Result<(), M.Fault> {
    if |key| > 1 then
      M.CheckDotted(doc.declared, doc.closed, doc.currentPath + key, |doc.currentPath| + 1, doc.epochs)
    else Ok(())
  }

  /** The assignment whose key has just been read: its value, and the document with it. */
  datatype Assigned = Assigned(doc: M.State, st: State)

  function ParseAssignment(inp: Input, st: State, doc: M.State, keyText: string): (r: Result<Assigned, ReadFault>)
    requires Inv(inp, st) && M.Valid(doc)
    ensures r.Ok? ==> M.Valid(r.value.doc) && Inv(inp, r.value.st) && st.off < r.value.st.off
  {
    match KeyPathOf(keyText)
    case Err(f) => Err(BadPath(f))
    case Ok(key) =>
      var _ :- Lifted(CheckKey(doc, key));
      var v :- ParseNext(inp, st);
      var next :- Lifted(M.StepKeyValue(doc, key, v.value));
      Ok(Assigned(next, v.st))
  }

  /** The rest of a document, in the decoder's state `st` with the tables built so far. */
  function ParseFrom(inp: Input, st: State, doc: M.State, inTable: bool): (r: Result<M.State, ReadFault>)
    requires Inv(inp, st) && M.Valid(doc)
    ensures r.Ok? ==> M.Valid(r.value)
    decreases |inp.buf| - st.off
  {
    match ReadToken(inp, st)
    case Stopped(_, f) => Err(Lexical(f))
    case Ended(_) => Ok(doc)
    case Tok(next, t) =>
      if t.kind.Comment? then ParseFrom(inp, next, doc, inTable)
      else if t.kind.TableHeader? then
        var path :- HeaderPath(Raw(inp, t), 1);
        var made :- Lifted(M.StepHeader(doc, path));
        ParseFrom(inp, next, made, true)
      else if t.kind.ArrayTableHeader? then
        var path :- HeaderPath(Raw(inp, t), 2);
        var made :- Lifted(M.StepArrayHeader(doc, path));
        ParseFrom(inp, next, made, true)
      else if t.kind.Key? then
        var a :- ParseAssignment(inp, next, doc, Raw(inp, t));
        ParseFrom(inp, a.st, a.doc, inTable)
      else if !inTable then Err(UnexpectedToken)
      else ParseFrom(inp, next, doc, inTable)
  }

  lemma OpenedKeepsInv(inp: Input, maxDocumentSize: int)
    ensures Inv(inp, Opened(inp, maxDocumentSize))
  {
  }

  /** `parseDocument` without a filter. */
  function ParseText(inp: Input, maxDocumentSize: int): (r: Result<M.State, ReadFault>)
    ensures r.Ok? ==> M.Valid(r.value)
  {
    OpenedKeepsInv(inp, maxDocumentSize);
    ParseFrom(inp, Opened(inp, maxDocumentSize), M.Initial, false)
  }
}
