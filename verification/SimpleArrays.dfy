/**
 The shortcut for a top-level array of nothing but strings. It accepts only what the structural skipper accepts, and
 leaves the decoder where the skipper does, up to white space that both skip next.
 */
module SimpleArrays {
  import opened Results
  import opened Bytes
  import opened StringParser
  import opened Lexer
  import opened TokenMachine
  import opened Skipper

  /** The shortcut accepts the array up to `end`, leaves it to the general skipper, or reports an error. */
  datatype Simple = Accepts(end: nat) | Declines | Rejects(fault: Fault)

  /** Blanks and line endings; a lone carriage return is not one. */
  function LineSpace(buf: string, i: nat): (r: Option<nat>)
    requires i <= |buf|
    ensures r.Some? ==> i <= r.value <= |buf|
    decreases |buf| - i
  {
    if i == |buf| then Some(i)
    else if Blank(buf[i]) || buf[i] == '\n' then LineSpace(buf, i + 1)
    else if buf[i] != '\r' then Some(i)
    else if StartsCrLf(buf[i..]) then LineSpace(buf, i + 2)
    else None
  }

  /** One turn of the shortcut's loop. */
  datatype SimpleTurn = More(i: nat, expectElement: bool) | Stop(simple: Simple)

  function SimpleStep(inp: Input, i: nat, expectElement: bool): (r: SimpleTurn)
    requires i <= |inp.buf|
    ensures r.More? ==> i < r.i <= |inp.buf|
  {
    var w := LineSpace(inp.buf, i);
    if w.None? || w.value >= |inp.buf| then Stop(Declines)
    else
      var at := w.value;
      var c := inp.buf[at];
      if c == ']' then Stop(Accepts(at + 1))
      else if c == '#' then
        match ScanComment(inp.buf[at..])
        case Err(f) => Stop(Rejects(At(f, at)))
        case Ok(n) => More(at + n, expectElement)
      else if c == ',' then
        if expectElement then Stop(Rejects(Syntax(UnexpectedComma, at))) else More(at + 1, true)
      else if !IsQuote(c) then Stop(Declines)
      else if !expectElement then Stop(Rejects(Syntax(ExpectedArraySeparator, at)))
      else
        match ScanString(inp.buf[at..])
        case Err(f) => Stop(Rejects(At(f, at)))
        case Ok(s) =>
          if s.length > inp.limits.maxStringLength then Stop(Rejects(Limit(MaxStringLength, at, at + s.length)))
          else More(at + s.length, false)
  }

  /** The shortcut from inside the brackets; `expectElement` holds after `[` and after a comma. */
  function SimpleArray(inp: Input, i: nat, expectElement: bool): Simple
    requires i <= |inp.buf|
    decreases |inp.buf| - i
  {
    match SimpleStep(inp, i, expectElement)
    case More(next, wantsElement) => SimpleArray(inp, next, wantsElement)
    case Stop(simple) => simple
  }

  /** `finishTopLevelArrayValue`: the rest of the line, when only blanks are left on it, is consumed with the value. */
  function FinishTopLevel(buf: string, st: State, i: nat): State
    requires i <= |buf|
    decreases |buf| - i
  {
    var done := st.(off := i, atLineStart := false, expectingValue := false, valueNoNewline := false,
                    needSeparator := false, needLineEnd := true);
    if i == |buf| then done
    else if Blank(buf[i]) then FinishTopLevel(buf, st, i + 1)
    else if buf[i] == '\n' then done.(off := i + 1, atLineStart := true, needLineEnd := false)
    else if StartsCrLf(buf[i..]) then done.(off := i + 2, atLineStart := true, needLineEnd := false)
    else done
  }

  lemma {:induction false} LineSpaceIsStructural(buf: string, i: nat)
    requires i <= |buf| && LineSpace(buf, i).Some?
    ensures var at := LineSpace(buf, i).value;
      && StructuralSpace(buf, i) == StructuralSpace(buf, at)
      && (at < |buf| ==> if buf[at] == '#' then ScanComment(buf[at..]).Ok? ==>
                           StructuralSpace(buf, at) == StructuralSpace(buf, at + ScanComment(buf[at..]).value)
                         else StructuralSpace(buf, at) == Ok(at))
    decreases |buf| - i
  {
    hide ScanComment;
    if i < |buf| {
      if Blank(buf[i]) || buf[i] == '\n' {
        LineSpaceIsStructural(buf, i + 1);
      } else if buf[i] == '\r' {
        LineSpaceIsStructural(buf, i + 2);
      }
    }
  }

  function InArraySkip(i: nat, expectElement: bool, arrayDepth: nat, inlineDepth: nat): (s: Skip)
    ensures s.frames != [] && s.i == i
  {
    Skip(i, [if expectElement then ArrayValue else ArraySeparator], arrayDepth, inlineDepth)
  }

  lemma SameSpaceSameSkip(inp: Input, i: nat, j: nat, expectElement: bool, arrayDepth: nat, inlineDepth: nat)
    requires i <= |inp.buf| && j <= |inp.buf| && StructuralSpace(inp.buf, i) == StructuralSpace(inp.buf, j)
    ensures SkipAll(inp, InArraySkip(i, expectElement, arrayDepth, inlineDepth))
         == SkipAll(inp, InArraySkip(j, expectElement, arrayDepth, inlineDepth))
  {
    hide StructuralSpace, SkipAct;
  }

  /** At the bytes the shortcut handles, the skipper does the same. */
  lemma SkipActMatches(inp: Input, at: nat, expectElement: bool, ad: nat, id: nat)
    requires at < |inp.buf|
    ensures var s := InArraySkip(at, expectElement, ad, id);
      && (inp.buf[at] == ']' ==> SkipAct(inp, s).Ok? && SkipAct(inp, s).value.i == at + 1
                                 && SkipAct(inp, s).value.frames == [])
      && (inp.buf[at] == ',' && !expectElement ==> SkipAct(inp, s) == Ok(InArraySkip(at + 1, true, ad, id)))
      && (IsQuote(inp.buf[at]) && expectElement && ScanString(inp.buf[at..]).Ok?
          && ScanString(inp.buf[at..]).value.length <= inp.limits.maxStringLength ==>
            SkipAct(inp, s) == Ok(InArraySkip(at + ScanString(inp.buf[at..]).value.length, false, ad, id)))
  {
    hide ScanString;
    var s := InArraySkip(at, expectElement, ad, id);
    assert SetTop(s, ArraySeparator) == InArraySkip(at, false, ad, id);
    assert SetTop(s, ArrayValue) == InArraySkip(at, true, ad, id);
  }

  lemma SkipAllAtToken(inp: Input, at: nat, expectElement: bool, ad: nat, id: nat)
    requires at < |inp.buf| && StructuralSpace(inp.buf, at) == Ok(at)
    ensures var s := InArraySkip(at, expectElement, ad, id);
      SkipAct(inp, s).Ok? ==>
        at < SkipAct(inp, s).value.i <= |inp.buf| && SkipAll(inp, s) == SkipAll(inp, SkipAct(inp, s).value)
  {
    hide StructuralSpace, SkipAct;
    var s := InArraySkip(at, expectElement, ad, id);
    assert SkipStep(inp, s) == SkipAct(inp, s.(i := at));
  }

  lemma {:induction false} SimpleArrayIsStructural(inp: Input, i: nat, expectElement: bool, ad: nat, id: nat)
    requires i <= |inp.buf| && SimpleArray(inp, i, expectElement).Accepts?
    ensures SkipAll(inp, InArraySkip(i, expectElement, ad, id)) == Ok(SimpleArray(inp, i, expectElement).end)
    decreases |inp.buf| - i
  {
    hide SkipAct, SkipAll, ScanString, ScanComment, InArraySkip, StructuralSpace, LineSpace;
    var at := LineSpace(inp.buf, i).value;
    var c := inp.buf[at];
    LineSpaceIsStructural(inp.buf, i);
    if c == '#' {
      var n := ScanComment(inp.buf[at..]).value;
      SameSpaceSameSkip(inp, i, at + n, expectElement, ad, id);
      SimpleArrayIsStructural(inp, at + n, expectElement, ad, id);
    } else {
      SameSpaceSameSkip(inp, i, at, expectElement, ad, id);
      SkipActMatches(inp, at, expectElement, ad, id);
      SkipAllAtToken(inp, at, expectElement, ad, id);
      if c == ']' {
        AllSkipped(inp, SkipAct(inp, InArraySkip(at, expectElement, ad, id)).value);
      } else if c == ',' {
        SimpleArrayIsStructural(inp, at + 1, true, ad, id);
      } else {
        SimpleArrayIsStructural(inp, at + ScanString(inp.buf[at..]).value.length, false, ad, id);
      }
    }
  }

  lemma AllSkipped(inp: Input, s: Skip)
    requires s.frames == [] && s.i <= |inp.buf|
    ensures SkipAll(inp, s) == Ok(s.i)
  {
  }

  lemma {:induction false} FinishIsAfterValue(buf: string, st: State, i: nat)
    requires i <= |buf| && st.stack == []
    ensures SkipSpaces(buf, FinishTopLevel(buf, st, i)) == SkipSpaces(buf, AfterValue(st, i))
    decreases |buf| - i
  {
    if i < |buf| && Blank(buf[i]) {
      FinishIsAfterValue(buf, st, i + 1);
    }
  }

  /** What the shortcut accepts the skipper accepts up to the same byte, and after white space the states are equal. */
  lemma SimpleArrayRefinesSkipper(inp: Input, st: State)
    requires Inv(inp, st) && st.stack == [] && st.off < |inp.buf| && inp.buf[st.off] == '['
    requires SimpleArray(inp, st.off + 1, true).Accepts?
    ensures var end := SimpleArray(inp, st.off + 1, true).end;
      && SkipStructural(inp, st.off, st.arrayDepth, st.inlineDepth) == Ok(end) && end <= |inp.buf|
      && SkipSpaces(inp.buf, FinishTopLevel(inp.buf, st, end)) == SkipSpaces(inp.buf, AfterValue(st, end))
  {
    hide SkipAll, SimpleArray;
    SimpleArrayIsStructural(inp, st.off + 1, true, st.arrayDepth + 1, st.inlineDepth);
    SimpleArrayEnds(inp, st.off + 1, true);
    FinishIsAfterValue(inp.buf, st, SimpleArray(inp, st.off + 1, true).end);
    assert [] + [ArrayValue] == [ArrayValue];
  }

  lemma {:induction false} SimpleArrayEnds(inp: Input, i: nat, expectElement: bool)
    requires i <= |inp.buf|
    ensures SimpleArray(inp, i, expectElement).Accepts? ==> SimpleArray(inp, i, expectElement).end <= |inp.buf|
    decreases |inp.buf| - i
  {
    hide ScanComment, ScanString;
    var turn := SimpleStep(inp, i, expectElement);
    if turn.More? {
      SimpleArrayEnds(inp, turn.i, turn.expectElement);
    }
  }

  // ----- The errors of the shortcut are those of the tokens -----

  /** The fault that reading tokens up to the end of `depth` open containers stops with. */
  function DepthFault(inp: Input, st: State, depth: nat): Option<Fault>
    requires Inv(inp, st)
    decreases |inp.buf| - st.off
  {
    if depth == 0 then None
    else
      match ReadToken(inp, st)
      case Stopped(_, f) => Some(f)
      case Ended(_) => None
      case Tok(next, t) =>
        if t.kind.ArrayStart? || t.kind.InlineTableStart? then DepthFault(inp, next, depth + 1)
        else if t.kind.ArrayEnd? || t.kind.InlineTableEnd? then DepthFault(inp, next, depth - 1)
        else DepthFault(inp, next, depth)
  }

  predicate InsideArray(st: State, expectElement: bool) {
    FlagsOf(st, if expectElement then ArrayValue else ArraySeparator) && InnermostIsArray(st.stack)
  }

  lemma {:induction false} LineSpaceRead(inp: Input, st: State, expectElement: bool) returns (at: State)
    requires Inv(inp, st) && InsideArray(st, expectElement)
    requires LineSpace(inp.buf, st.off).Some? && LineSpace(inp.buf, st.off).value < |inp.buf|
    ensures Inv(inp, at) && InsideArray(at, expectElement) && st.off <= at.off == LineSpace(inp.buf, st.off).value
    ensures !SpaceByte(inp.buf[at.off]) && ReadToken(inp, at) == ReadToken(inp, st)
    decreases |inp.buf| - st.off
  {
    hide ReadToken, SkipSpaces;
    var c := inp.buf[st.off];
    at := st;
    if Blank(c) || c == '\n' || c == '\r' {
      var next := OneSpace(inp, st);
      SameSpaceSameRead(inp, st, next);
      at := LineSpaceRead(inp, next, expectElement);
    }
  }

  lemma CommentFault(inp: Input, st: State)
    requires Inv(inp, st) && st.err.None? && st.off < |inp.buf| && inp.buf[st.off] == '#' && !st.needLineEnd
    requires ScanComment(inp.buf[st.off..]).Err?
    ensures ReadToken(inp, st).Stopped? && ReadToken(inp, st).fault == At(ScanComment(inp.buf[st.off..]).error, st.off)
  {
    hide ScanComment;
    ReadsAtToken(inp, st);
  }

  lemma CommaFault(inp: Input, st: State)
    requires Inv(inp, st) && InsideArray(st, true) && st.off < |inp.buf| && inp.buf[st.off] == ','
    ensures ReadToken(inp, st).Stopped? && ReadToken(inp, st).fault == Syntax(UnexpectedComma, st.off)
  {
    ReadsAtToken(inp, st);
  }

  /** A string where an element is due is the next token, or stops the reading with the fault the shortcut reports. */
  lemma ElementRead(inp: Input, st: State, expectElement: bool)
    requires Inv(inp, st) && InsideArray(st, expectElement) && st.off < |inp.buf| && IsQuote(inp.buf[st.off])
    ensures var scan := ScanString(inp.buf[st.off..]);
      match ReadToken(inp, st)
      case Tok(next, t) =>
        && expectElement && scan.Ok? && scan.value.length <= inp.limits.maxStringLength && t.kind.StringValueToken?
        && next.off == st.off + scan.value.length && InsideArray(next, false)
      case Stopped(_, f) =>
        if !expectElement then f == Syntax(ExpectedArraySeparator, st.off)
        else if scan.Err? then f == At(scan.error, st.off)
        else scan.value.length > inp.limits.maxStringLength && f == Limit(MaxStringLength, st.off, st.off + scan.value.length)
      case Ended(_) => false
  {
    hide ScanString;
    ReadsAtToken(inp, st);
  }

  lemma {:induction false} FaultIsTokens(inp: Input, st: State, expectElement: bool)
    requires Inv(inp, st) && InsideArray(st, expectElement) && SimpleArray(inp, st.off, expectElement).Rejects?
    ensures DepthFault(inp, st, 1) == Some(SimpleArray(inp, st.off, expectElement).fault)
    decreases |inp.buf| - st.off
  {
    hide ReadToken, ScanString, ScanComment, LineSpace, Inv;
    var at := LineSpaceRead(inp, st, expectElement);
    var c := inp.buf[at.off];
    if c == '#' {
      if ScanComment(inp.buf[at.off..]).Err? {
        CommentFault(inp, at);
      } else {
        CommentRead(inp, at);
        FaultIsTokens(inp, ReadToken(inp, at).st, expectElement);
      }
    } else if c == ',' {
      if expectElement {
        CommaFault(inp, at);
      } else {
        CommaRead(inp, at);
        FaultIsTokens(inp, AfterComma(at), true);
      }
    } else {
      ElementRead(inp, at, expectElement);
      if ReadToken(inp, at).Tok? {
        FaultIsTokens(inp, ReadToken(inp, at).st, false);
      }
    }
  }

  /** What the shortcut rejects at a top-level value, reading the value token by token rejects with the same fault. */
  lemma RejectsAsTokensDo(inp: Input, st: State)
    requires Inv(inp, st) && st.stack == [] && st.err.None? && st.expectingValue && st.off < |inp.buf| && inp.buf[st.off] == '['
    requires SimpleArray(inp, st.off + 1, true).Rejects?
    ensures ReadToken(inp, st).Tok? && ReadToken(inp, st).token.kind.ArrayStart?
    ensures DepthFault(inp, ReadToken(inp, st).st, 1) == Some(SimpleArray(inp, st.off + 1, true).fault)
  {
    hide SimpleArray, DepthFault;
    ReadsAtToken(inp, st);
    TurnKeepsInv(inp, st);
    assert (st.stack + [InArray])[|st.stack|] == InArray;
    FaultIsTokens(inp, ReadToken(inp, st).st, true);
  }
}
