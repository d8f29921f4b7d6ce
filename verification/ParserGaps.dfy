/** Input the grammar of TOML does not allow and the parser accepts, and exactly when it does. */
module ParserGaps {
  import opened Results
  import opened Utf8
  import opened Paths
  import opened StringParser
  import opened StringWriter
  import opened Lexer
  import opened TokenMachine
  import opened DocumentReader
  import opened PrintedTables
  import opened PrintedText
  import opened PrintedValues
  import opened Printer
  import opened ReadBack
  import opened TableLimits
  import opened TableTheorems
  import M = TableMachine

  // ----- Tokens that start no statement -----

  /** A token `parseDocument` has no case for: at the level of statements nothing starts with it. */
  predicate Stray(kind: TokenKind) {
    !kind.Comment? && !kind.TableHeader? && !kind.ArrayTableHeader? && !kind.Key?
  }

  /** A stray token is refused exactly before the first header; behind one it is passed over. */
  lemma StrayRefusedIff(inp: Input, st: State, doc: M.State, inTable: bool)
    requires Inv(inp, st) && M.Valid(doc) && ReadToken(inp, st).Tok? && Stray(ReadToken(inp, st).token.kind)
    ensures ParseFrom(inp, st, doc, inTable)
         == if inTable then ParseFrom(inp, ReadToken(inp, st).st, doc, true) else Err(UnexpectedToken)
  {
    hide ReadToken;
  }

  /** A parser that passes over every stray token, wherever it stands. */
  function ParseSkipping(inp: Input, st: State, doc: M.State): (r: Result<M.State, ReadFault>)
    requires Inv(inp, st) && M.Valid(doc)
    decreases |inp.buf| - st.off
  {
    match ReadToken(inp, st)
    case Stopped(_, f) => Err(Lexical(f))
    case Ended(_) => Ok(doc)
    case Tok(next, t) =>
      match t.kind
      case TableHeader =>
        var path :- HeaderPath(Raw(inp, t), 1);
        var made :- Lifted(M.StepHeader(doc, path));
        ParseSkipping(inp, next, made)
      case ArrayTableHeader =>
        var path :- HeaderPath(Raw(inp, t), 2);
        var made :- Lifted(M.StepArrayHeader(doc, path));
        ParseSkipping(inp, next, made)
      case Key =>
        var a :- ParseAssignment(inp, next, doc, Raw(inp, t));
        ParseSkipping(inp, a.st, a.doc)
      case _ => ParseSkipping(inp, next, doc)
  }

  /** Reading without a fault comes to a stray token before it comes to a header. */
  predicate StrayFirst(inp: Input, st: State, doc: M.State)
    requires Inv(inp, st) && M.Valid(doc)
    decreases |inp.buf| - st.off
  {
    match ReadToken(inp, st)
    case Stopped(_, _) => false
    case Ended(_) => false
    case Tok(next, t) =>
      if t.kind.Comment? then StrayFirst(inp, next, doc)
      else if t.kind.Key? then
        var a := ParseAssignment(inp, next, doc, Raw(inp, t));
        a.Ok? && StrayFirst(inp, a.value.st, a.value.doc)
      else Stray(t.kind)
  }

  lemma {:induction false} HeadedSkips(inp: Input, st: State, doc: M.State)
    requires Inv(inp, st) && M.Valid(doc)
    ensures ParseFrom(inp, st, doc, true) == ParseSkipping(inp, st, doc)
    decreases |inp.buf| - st.off
  {
    hide ReadToken, ParseAssignment, HeaderPath, Raw, M.StepHeader, M.StepArrayHeader;
    if ReadToken(inp, st).Tok? {
      var next, t := ReadToken(inp, st).st, ReadToken(inp, st).token;
      if t.kind.TableHeader? {
        if HeaderPath(Raw(inp, t), 1).Ok? && M.StepHeader(doc, HeaderPath(Raw(inp, t), 1).value).Ok? {
          HeadedSkips(inp, next, M.StepHeader(doc, HeaderPath(Raw(inp, t), 1).value).value);
        }
      } else if t.kind.ArrayTableHeader? {
        if HeaderPath(Raw(inp, t), 2).Ok? && M.StepArrayHeader(doc, HeaderPath(Raw(inp, t), 2).value).Ok? {
          HeadedSkips(inp, next, M.StepArrayHeader(doc, HeaderPath(Raw(inp, t), 2).value).value);
        }
      } else if t.kind.Key? {
        var a := ParseAssignment(inp, next, doc, Raw(inp, t));
        if a.Ok? {
          HeadedSkips(inp, a.value.st, a.value.doc);
        }
      } else {
        HeadedSkips(inp, next, doc);
      }
    }
  }

  lemma {:induction false} UnheadedSkips(inp: Input, st: State, doc: M.State)
    requires Inv(inp, st) && M.Valid(doc)
    ensures ParseFrom(inp, st, doc, false)
         == if StrayFirst(inp, st, doc) then Err(UnexpectedToken) else ParseSkipping(inp, st, doc)
    decreases |inp.buf| - st.off
  {
    hide ReadToken, ParseAssignment, HeaderPath, Raw, M.StepHeader, M.StepArrayHeader;
    if ReadToken(inp, st).Tok? {
      var next, t := ReadToken(inp, st).st, ReadToken(inp, st).token;
      if t.kind.TableHeader? {
        if HeaderPath(Raw(inp, t), 1).Ok? && M.StepHeader(doc, HeaderPath(Raw(inp, t), 1).value).Ok? {
          HeadedSkips(inp, next, M.StepHeader(doc, HeaderPath(Raw(inp, t), 1).value).value);
        }
      } else if t.kind.ArrayTableHeader? {
        if HeaderPath(Raw(inp, t), 2).Ok? && M.StepArrayHeader(doc, HeaderPath(Raw(inp, t), 2).value).Ok? {
          HeadedSkips(inp, next, M.StepArrayHeader(doc, HeaderPath(Raw(inp, t), 2).value).value);
        }
      } else if t.kind.Key? {
        var a := ParseAssignment(inp, next, doc, Raw(inp, t));
        if a.Ok? {
          UnheadedSkips(inp, a.value.st, a.value.doc);
        }
      } else if t.kind.Comment? {
        UnheadedSkips(inp, next, doc);
      }
    }
  }

  /**
   Exactly which documents are refused for a stray token: those that come to one before any header, without a fault on
   the way. Of every other document the parser makes what is made of it with its stray tokens passed over.
   */
  lemma StrayTokensDecide(inp: Input, maxDocumentSize: int)
    ensures Inv(inp, Opened(inp, maxDocumentSize))
    ensures var st := Opened(inp, maxDocumentSize);
      ParseText(inp, maxDocumentSize)
      == if StrayFirst(inp, st, M.Initial) then Err(UnexpectedToken) else ParseSkipping(inp, st, M.Initial)
  {
    OpenedKeepsInv(inp, maxDocumentSize);
    UnheadedSkips(inp, Opened(inp, maxDocumentSize), M.Initial);
  }

  /** `[key]`, and a closing bracket on a line of its own. */
  function StrayBracket(key: string): string
    requires FormatKey(key).Ok?
  {
    "[" + (FormatKey(key).value + ("]" + ("\n" + "]\n")))
  }

  lemma CloserAtLine(inp: Input, st: State, q: nat, doc: M.State)
    requires AtLine(inp, st, q) && inp.buf[q..] == "]\n" && M.Valid(doc)
    ensures ParseFrom(inp, st, doc, true) == Ok(doc)
  {
    hide ReadToken;
    LineReads(inp, st, q);
    assert inp.buf[q] == inp.buf[q..][0] == ']' && inp.buf[q + 1] == inp.buf[q..][1] == '\n' && |inp.buf| == q + 2;
    CloserRead(inp, Start(q, true), true);
    var after := Start(q + 1, false).(needLineEnd := true);
    assert ArrayEndTurn(Start(q, true)).st == after;
    LineEnds(inp, after);
    assert inp.buf[q + 2..] == "";
    DocumentEnds(inp, after, q + 2, doc, true);
  }

  /**
   After any header a token that starts no statement is skipped instead of being refused: a document that opens one
   table and then holds nothing but a closing bracket is accepted, for every key.
   */
  lemma StrayBracketIsAccepted(key: string, inp: Input, maxDocumentSize: int)
    requires FormatKey(key).Ok? && |FormatKey(key).value| <= inp.limits.maxKeyLength
    requires inp.buf == StrayBracket(key) && (maxDocumentSize > 0 ==> |inp.buf| <= maxDocumentSize)
    ensures ParseText(inp, maxDocumentSize).Ok?
  {
    hide ReadToken, ParseFrom, FormatKey, M.StepHeader, AtLine, Inv;
    StrayIsUtf8(key);
    OpenedPlain(inp, maxDocumentSize);
    var made := TableOpens(key);
    HeaderBeforeStray(key, inp, made);
    var end := |FormatKey(key).value| + 2;
    var after := Start(end, false).(needLineEnd := true);
    HeaderStateInv(inp, end);
    LineEnds(inp, after);
    CloserAtLine(inp, after, end + 1, made);
  }

  lemma TableOpens(key: string) returns (made: M.State)
    ensures M.StepHeader(M.Initial, [key]) == Ok(made) && M.Valid(made)
  {
    var nodes := HeaderFirst([key]);
    made := AfterHeader([key], nodes);
  }

  lemma HeaderBeforeStray(key: string, inp: Input, made: M.State)
    requires FormatKey(key).Ok? && |FormatKey(key).value| <= inp.limits.maxKeyLength && inp.buf == StrayBracket(key)
    requires M.StepHeader(M.Initial, [key]) == Ok(made) && M.Valid(M.Initial)
    ensures var end := |FormatKey(key).value| + 2;
      var after := Start(end, false).(needLineEnd := true);
      && Inv(inp, Start(0, true)) && Inv(inp, after) && end < |inp.buf| && inp.buf[end] == '\n'
      && inp.buf[end + 1..] == "]\n"
      && ParseFrom(inp, Start(0, true), M.Initial, false) == ParseFrom(inp, after, made, true)
  {
    hide ReadToken, ParseFrom, FormatKey, M.StepHeader, HeaderPath, Inv;
    var k := FormatKey(key).value;
    assert Bracket(false, '[') == "[" && Bracket(false, ']') == "]" && inp.buf[0..] == inp.buf;
    OneKeyPath([key]);
    HeaderReads(inp, 0, [key], false, "]\n");
    HeaderTextReadsBack([key], false);
    var end := |k| + 2;
    HeaderSlice(inp.buf, 0, "[", k, "]", "\n" + "]\n");
    HeaderStateInv(inp, end);
    var after := Start(end, false).(needLineEnd := true);
    HeaderStatementStep(inp, Start(0, true), after, Token(TableHeader, 0, end, false), [key], false, M.Initial, made, false);
  }

  lemma StrayIsUtf8(key: string)
    requires FormatKey(key).Ok?
    ensures Utf8.Valid(StrayBracket(key)) && !(BOM <= StrayBracket(key))
  {
    hide FormatKey, Utf8.Valid;
    KeyValid(key);
    AsciiValid("[");
    AsciiValid("]" + ("\n" + "]\n"));
    ValidConcat(FormatKey(key).value, "]" + ("\n" + "]\n"));
    ValidConcat("[", FormatKey(key).value + ("]" + ("\n" + "]\n")));
    assert StrayBracket(key)[0] == '[';
  }

  // ----- A duplicate header that is not found -----

  const NUL_TEXT := "\n[x.y.z]\n" + ("\n[[\"x\\u0000y\"]]\n" + "\n[x.y.z]\n")

  lemma NulKeyPrinted()
    ensures FormatPath(["x\0y"]) == Ok("\"x\\u0000y\"")
    ensures FormatPath(["x", "y", "z"]) == Ok("x.y.z")
  {
    var key := "x\0y";
    assert key[1..] == "\0y" && key[1..][1..] == "y" && key[1..][1..][1..] == "";
    var escape := "\\u0000";
    assert Escaped("y") == Ok("y") by {
      assert "y"[1..] == "" && "y" + "" == "y";
    }
    assert EscapedUnit("\0y") == Ok(Unit(escape, 1)) by {
      assert ControlEscape('\0') == escape;
    }
    assert "\0y"[1..] == "y";
    assert Escaped("\0y") == Ok(escape + "y");
    assert Escaped(key) == Ok("x" + (escape + "y"));
    assert "\"" + ("x" + (escape + "y")) + "\"" == "\"x\\u0000y\"";
    assert !BareKey(key) by {
      assert key[1] == '\0';
    }
    assert ["x", "y", "z"][1..] == ["y", "z"] && ["y", "z"][1..] == ["z"];
    assert BareKey("x") && BareKey("y") && BareKey("z");
    assert FormatPath(["z"]) == Ok("z");
    assert FormatPath(["y", "z"]) == Ok("y" + "." + "z");
    assert "x" + "." + ("y" + "." + "z") == "x.y.z";
  }

  lemma NulTextPrinted()
    ensures FormatStatements(NUL_DOCUMENT) == Ok(NUL_TEXT)
  {
    hide FormatPath;
    NulKeyPrinted();
    var s := NUL_DOCUMENT;
    assert s[1..][1..][1..] == [] && s[1..][0] == s[1] && s[1..][1..][0] == s[2];
    assert "\n[" + "x.y.z" + "]\n" == "\n[x.y.z]\n";
    assert "\n[[" + "\"x\\u0000y\"" + "]]\n" == "\n[[\"x\\u0000y\"]]\n";
    assert FormatStatement(s[0]) == Ok("\n[x.y.z]\n") && FormatStatement(s[2]) == FormatStatement(s[0]);
    assert FormatStatement(s[1]) == Ok("\n[[\"x\\u0000y\"]]\n");
    assert FormatStatements(s[1..][1..][1..]) == Ok("");
    assert "\n[x.y.z]\n" + "" == "\n[x.y.z]\n";
    assert FormatStatements(s[1..][1..]) == Ok("\n[x.y.z]\n");
    assert FormatStatements(s[1..]) == Ok("\n[[\"x\\u0000y\"]]\n" + "\n[x.y.z]\n");
  }

  /** The bytes `[x.y.z]`, `[["x\u0000y"]]`, `[x.y.z]` are accepted, and both headers open one table. */
  lemma NulBytesAccepted(inp: Input, maxDocumentSize: int)
    requires inp.buf == NUL_TEXT && inp.limits.maxKeyLength >= 10 && (maxDocumentSize > 0 ==> |inp.buf| <= maxDocumentSize)
    ensures M.Run(NUL_DOCUMENT).Ok? && ParseText(inp, maxDocumentSize) == Ok(M.Run(NUL_DOCUMENT).value)
    ensures TableAt(NUL_DOCUMENT, 0) == TableAt(NUL_DOCUMENT, 2)
  {
    hide FormatPath, M.Run, ParseText, FormatStatements, TableAt;
    NulKeysDefeatDuplicateCheck();
    NulTextPrinted();
    NulKeyPrinted();
    assert |"\"x\\u0000y\""| == 10 && |"x.y.z"| == 5;
    PrintedRunReadsBack(NUL_DOCUMENT, inp, maxDocumentSize);
  }
}
