/**
 The token state machine of `Decoder.readToken`: what one turn of its loop does to the dispatch flags and to the stack
 of open containers, and what every reachable state satisfies.
 */
module TokenMachine {
  import opened Results
  import opened Bytes
  import opened StringParser
  import opened Utf8
  import opened Lexer

  datatype Limits = Limits(maxNestedDepth: int, maxKeyLength: int, maxStringLength: int)

  datatype Input = Input(buf: string, limits: Limits, readsFloat: FloatReader)

  datatype Container = InArray | InInline

  datatype State = State(
    off: nat, expectingValue: bool, valueNoNewline: bool, needSeparator: bool, needLineEnd: bool, atLineStart: bool,
    arrayDepth: nat, inlineDepth: nat, stack: seq<Container>, err: Option<Fault>)

  datatype Token = Token(kind: TokenKind, start: nat, end: nat, ready: bool)

  /** What one turn of the loop does: go round again, hand out a token, fail, or find the input exhausted. */
  datatype Turn =
    | Again(st: State)
    | Emit(st: State, token: Token)
    | Fail(st: State, fault: Fault)
    | Eof(st: State)

  // ----- Flags and the container stack -----

  predicate InnermostIsArray(stack: seq<Container>) {
    stack != [] && stack[|stack| - 1] == InArray
  }

  /** A closer pops the innermost container only when it matches. */
  function Pop(stack: seq<Container>, want: Container): seq<Container> {
    if stack != [] && stack[|stack| - 1] == want then stack[..|stack| - 1] else stack
  }

  /** A bad string is reported but not recorded. */
  function Record(st: State, f: Fault): State {
    if f.BadString? then st else st.(err := Some(f))
  }

  function Failed(st: State, f: Fault): Turn {
    Fail(Record(st, f), f)
  }

  /** The flags after a complete value that ends at `end`. */
  function AfterValue(st: State, end: nat): State {
    st.(off := end, atLineStart := false, expectingValue := InnermostIsArray(st.stack), valueNoNewline := false,
        needSeparator := st.stack != [], needLineEnd := st.stack == [])
  }

  /** One blank or line ending further on; a value may not start on the next line. */
  function SpaceStep(buf: string, st: State): (next: State)
    requires st.off < |buf|
    ensures next == st || st.off < next.off <= |buf|
  {
    if Blank(buf[st.off]) then st.(off := st.off + 1)
    else if st.valueNoNewline then st
    else if buf[st.off] == '\n' then st.(off := st.off + 1, atLineStart := true, needLineEnd := false)
    else if StartsCrLf(buf[st.off..]) then st.(off := st.off + 2, atLineStart := true, needLineEnd := false)
    else st
  }

  function SkipSpaces(buf: string, st: State): State
    decreases |buf| - st.off
  {
    if st.off >= |buf| then st
    else
      var next := SpaceStep(buf, st);
      if next.off == st.off then st else SkipSpaces(buf, next)
  }

  lemma SpacesUnfold(buf: string, st: State)
    ensures SkipSpaces(buf, st)
         == if st.off >= |buf| || SpaceStep(buf, st).off == st.off then st else SkipSpaces(buf, SpaceStep(buf, st))
  {
    hide SpaceStep;
  }

  // ----- The scans that make tokens -----

  function CommentTurn(inp: Input, st: State): Turn
    requires st.off < |inp.buf|
  {
    match ScanComment(inp.buf[st.off..])
    case Err(f) => Failed(st, At(f, st.off))
    case Ok(n) => Emit(st.(off := st.off + n, atLineStart := false), Token(Comment, st.off, st.off + n, false))
  }

  function KeyTurn(inp: Input, st: State): Turn
    requires st.off < |inp.buf| && !Blank(inp.buf[st.off])
  {
    match ScanKey(inp.buf[st.off..], inp.limits.maxKeyLength)
    case Err(f) => Failed(st, At(f, st.off))
    case Ok(k) =>
      Emit(st.(off := st.off + k.next, atLineStart := false, expectingValue := true, valueNoNewline := true,
               needLineEnd := false),
           Token(Key, st.off, st.off + k.length, false))
  }

  /** The scan of a string or bare value, from its first byte. */
  datatype ValueToken = ValueToken(kind: TokenKind, length: nat, ready: bool)

  function ScanValue(rest: string, inp: Input): (r: Result<ValueToken, Fault>)
    requires rest != ""
    ensures r.Ok? ==> 1 <= r.value.length <= |rest|
  {
    if IsQuote(rest[0]) then
      var s :- ScanString(rest);
      if s.length > inp.limits.maxStringLength then Err(Limit(MaxStringLength, 0, s.length))
      else Ok(ValueToken(StringValueToken, s.length, s.ready))
    else
      var end := ScanBareValueEnd(rest);
      if end == 0 then Err(Syntax(NoValue, 0))
      else
        match Classify(rest[..end], inp.readsFloat)
        case Err(problem) => Err(Syntax(problem, 0))
        case Ok(kind) => Ok(ValueToken(kind, end, false))
  }

  function ValueTurn(inp: Input, st: State): Turn
    requires st.off < |inp.buf|
  {
    match ScanValue(inp.buf[st.off..], inp)
    case Err(f) => Failed(st, At(f, st.off))
    case Ok(v) => Emit(AfterValue(st, st.off + v.length), Token(v.kind, st.off, st.off + v.length, v.ready))
  }

  /** The error `enforceNestedDepth` records; the token is handed out all the same. */
  function EnforceNestedDepth(st: State, limits: Limits, off: nat, depth: nat): State {
    if limits.maxNestedDepth > 0 && depth > limits.maxNestedDepth then
      st.(err := Some(Limit(MaxNestedDepth, off, off + 1)))
    else st
  }

  function ArrayStartTurn(inp: Input, st: State): Turn {
    var deeper := st.(off := st.off + 1, atLineStart := false, arrayDepth := st.arrayDepth + 1,
                      stack := st.stack + [InArray], expectingValue := true, valueNoNewline := false,
                      needSeparator := false);
    Emit(EnforceNestedDepth(deeper, inp.limits, st.off, st.arrayDepth + 1), Token(ArrayStart, st.off, st.off + 1, false))
  }

  function InlineStartTurn(st: State): Turn {
    Emit(st.(off := st.off + 1, atLineStart := false, inlineDepth := st.inlineDepth + 1,
             stack := st.stack + [InInline], expectingValue := false, valueNoNewline := false, needSeparator := false),
         Token(InlineTableStart, st.off, st.off + 1, false))
  }

  function ArrayEndTurn(st: State): Turn {
    var closed := st.(arrayDepth := if st.arrayDepth > 0 then st.arrayDepth - 1 else 0, stack := Pop(st.stack, InArray));
    Emit(AfterValue(closed, st.off + 1), Token(ArrayEnd, st.off, st.off + 1, false))
  }

  function InlineEndTurn(st: State): Turn {
    var closed :=
      st.(inlineDepth := if st.inlineDepth > 0 then st.inlineDepth - 1 else 0, stack := Pop(st.stack, InInline));
    Emit(AfterValue(closed, st.off + 1), Token(InlineTableEnd, st.off, st.off + 1, false))
  }

  function HeaderTurn(inp: Input, st: State, isArray: bool): Turn
    requires st.off + (if isArray then 2 else 1) <= |inp.buf|
  {
    var rest, width := inp.buf[st.off..], if isArray then 2 else 1;
    match HeaderEnd(rest, width, isArray)
    case Err(f) => Failed(st, At(f, st.off))
    case Ok(i) =>
      match ValidateHeaderKey(rest, width, i, true)
      case Err(f) => Failed(st, At(f, st.off))
      case Ok(_) => HeaderTokenTurn(inp.limits, st, width, i + width)
  }

  /** A header token of `length` bytes with `width` brackets on either side; a key too long is found after the fact. */
  function HeaderTokenTurn(limits: Limits, st: State, width: nat, length: nat): Turn
    requires 1 <= width <= 2 && length >= width
  {
    var past := st.(off := st.off + length, atLineStart := false);
    if length - 2 * width > limits.maxKeyLength then
      Failed(past, Limit(MaxKeyLength, st.off + width, st.off + length - width))
    else
      Emit(past.(expectingValue := false, needLineEnd := true),
           Token(if width == 2 then ArrayTableHeader else TableHeader, st.off, st.off + length, false))
  }

  // ----- One turn of the loop -----

  predicate BareCarriageReturn(buf: string, off: nat)
    requires off < |buf|
  {
    buf[off] == '\r' && !(off + 1 < |buf| && buf[off + 1] == '\n')
  }

  function ExhaustedTurn(st: State): Turn {
    if st.expectingValue then Failed(st, Syntax(ExpectedValue, st.off)) else Eof(st)
  }

  /** The dispatch on the first byte of a token. */
  function Dispatch(inp: Input, st: State): Turn
    requires st.off < |inp.buf| && !Blank(inp.buf[st.off])
  {
    var ch := inp.buf[st.off];
    if ch == '[' || ch == '{' then
      if InnermostIsArray(st.stack) && !st.expectingValue then Failed(st, Syntax(ExpectedComma, st.off))
      else if ch == '[' then ArrayStartTurn(inp, st)
      else InlineStartTurn(st)
    else if ch == ']' then ArrayEndTurn(st)
    else if ch == '}' then InlineEndTurn(st)
    else if ch == '#' then CommentTurn(inp, st)
    else if ch == '=' then Failed(st, Syntax(UnexpectedEquals, st.off))
    else if ch == ',' then
      if !st.needSeparator then Failed(st, Syntax(UnexpectedComma, st.off))
      else
        Again(st.(off := st.off + 1, atLineStart := false, needSeparator := false,
                  expectingValue := InnermostIsArray(st.stack)))
    else if st.expectingValue then
      if st.needSeparator && InnermostIsArray(st.stack) then Failed(st, Syntax(ExpectedArraySeparator, st.off))
      else ValueTurn(inp, st)
    else if st.needSeparator && st.stack != [] then Failed(st, Syntax(ExpectedInlineSeparator, st.off))
    else KeyTurn(inp, st)
  }

  /** A turn at the first byte that is not white space. */
  function TurnAt(inp: Input, st: State): Turn
    requires st.off < |inp.buf| && !Blank(inp.buf[st.off])
  {
    if BareCarriageReturn(inp.buf, st.off) then Failed(st, Syntax(LoneCarriageReturn, st.off))
    else if st.needLineEnd then
      if inp.buf[st.off] == '#' then CommentTurn(inp, st)
      else if inp.buf[st.off] == '\n' then Again(st)
      else Failed(st, Syntax(ExpectedNewline, st.off))
    else if st.atLineStart && !st.expectingValue && "[[" <= inp.buf[st.off..] then HeaderTurn(inp, st, true)
    else if st.atLineStart && !st.expectingValue && inp.buf[st.off] == '[' then HeaderTurn(inp, st, false)
    else Dispatch(inp, st)
  }

  lemma {:induction false} SkipSpacesStops(buf: string, st: State)
    ensures var s := SkipSpaces(buf, st);
      && st.off <= s.off && (s.off <= |buf| || s == st)
      && (s.off < |buf| ==> !Blank(buf[s.off]))
      && (s.off < |buf| && !st.valueNoNewline ==> buf[s.off] != '\n' && !StartsCrLf(buf[s.off..]))
      && s == st.(off := s.off, atLineStart := s.atLineStart, needLineEnd := s.needLineEnd)
      && (s.needLineEnd ==> st.needLineEnd)
    decreases |buf| - st.off
  {
    if st.off < |buf| && SpaceStep(buf, st) != st {
      SkipSpacesStops(buf, SpaceStep(buf, st));
    }
  }

  function LoopTurn(inp: Input, st: State): Turn {
    if st.off >= |inp.buf| then ExhaustedTurn(st)
    else
      var s := SkipSpaces(inp.buf, st);
      SkipSpacesStops(inp.buf, st);
      if s.off >= |inp.buf| then ExhaustedTurn(s) else TurnAt(inp, s)
  }

  // ----- What every reachable state satisfies -----

  function CountArrays(stack: seq<Container>): nat {
    if stack == [] then 0
    else CountArrays(stack[..|stack| - 1]) + (if stack[|stack| - 1] == InArray then 1 else 0)
  }

  /** The state before the first token. */
  function Start(off: nat, atLineStart: bool): State {
    State(off, false, false, false, false, atLineStart, 0, 0, [], None)
  }

  /** The UTF-8 byte order mark. */
  const BOM: string := [0xEF as char, 0xBB as char, 0xBF as char]

  /** `initDecoderBytes`: the size limit, the UTF-8 check, and the mark at the very front, which is stepped over. */
  function Opened(inp: Input, maxDocumentSize: int): State {
    var bad := FirstIllFormed(inp.buf, 0);
    if maxDocumentSize > 0 && |inp.buf| > maxDocumentSize then
      Start(0, true).(err := Some(Limit(MaxDocumentSize, 0, maxDocumentSize)))
    else if bad != |inp.buf| then Start(0, true).(err := Some(Syntax(NotUtf8, bad)))
    else if BOM <= inp.buf then Start(3, false)
    else Start(0, true)
  }

  ghost predicate Inv(inp: Input, st: State) {
    && st.off <= |inp.buf|
    && (st.valueNoNewline ==> st.expectingValue && !st.needLineEnd && !st.needSeparator)
    && (st.needSeparator ==> st.stack != [])
    && (st.needLineEnd ==> !st.expectingValue)
    && st.arrayDepth <= CountArrays(st.stack)
  }

  lemma PopCounts(stack: seq<Container>, want: Container)
    ensures CountArrays(Pop(stack, want)) >= CountArrays(stack) - (if want == InArray then 1 else 0)
  {
  }

  /** What a turn that starts at `st` promises. */
  ghost predicate Keeps(inp: Input, st: State, turn: Turn) {
    && Inv(inp, turn.st) && st.off <= turn.st.off
    && (turn.Again? ==> st.off < turn.st.off && turn.st.err == st.err)
    && (turn.Emit? ==> st.off < turn.st.off && turn.token.start < turn.token.end <= turn.st.off)
  }

  lemma HeaderTurnKeeps(inp: Input, st: State, isArray: bool)
    requires Inv(inp, st) && !st.expectingValue && st.off + (if isArray then 2 else 1) <= |inp.buf|
    ensures Keeps(inp, st, HeaderTurn(inp, st, isArray))
  {
    hide HeaderEnd, ValidateHeaderKey;
  }

  lemma ScanTurnsKeep(inp: Input, st: State)
    requires Inv(inp, st) && st.off < |inp.buf| && !Blank(inp.buf[st.off])
    ensures Keeps(inp, st, CommentTurn(inp, st))
    ensures st.expectingValue ==> Keeps(inp, st, ValueTurn(inp, st))
    ensures !st.expectingValue && !st.needSeparator && !st.needLineEnd ==> Keeps(inp, st, KeyTurn(inp, st))
  {
    hide ScanComment, ScanKey, ScanValue;
  }

  lemma BracketTurnsKeep(inp: Input, st: State)
    requires Inv(inp, st) && st.off < |inp.buf| && !st.needLineEnd
    ensures Keeps(inp, st, ArrayStartTurn(inp, st)) && Keeps(inp, st, InlineStartTurn(st))
    ensures Keeps(inp, st, ArrayEndTurn(st)) && Keeps(inp, st, InlineEndTurn(st))
  {
    PopCounts(st.stack, InArray);
    PopCounts(st.stack, InInline);
    assert (st.stack + [InArray])[..|st.stack|] == st.stack && (st.stack + [InInline])[..|st.stack|] == st.stack;
  }

  lemma DispatchKeeps(inp: Input, st: State)
    requires Inv(inp, st) && st.off < |inp.buf| && !Blank(inp.buf[st.off]) && !st.needLineEnd
    ensures Keeps(inp, st, Dispatch(inp, st))
  {
    hide CommentTurn, KeyTurn, ValueTurn, ArrayStartTurn, ArrayEndTurn, InlineStartTurn, InlineEndTurn;
    ScanTurnsKeep(inp, st);
    BracketTurnsKeep(inp, st);
  }

  /**
   Every turn keeps the invariant and goes round again only after moving forward. The invariant is what rules out the
   one branch that would go round without moving: a newline left unread while a line end is due.
   */
  lemma TurnKeepsInv(inp: Input, st: State)
    requires Inv(inp, st)
    ensures Keeps(inp, st, LoopTurn(inp, st))
  {
    hide SkipSpaces, Dispatch, HeaderTurn, CommentTurn;
    SkipSpacesStops(inp.buf, st);
    var s := SkipSpaces(inp.buf, st);
    if s.off < |inp.buf| {
      ScanTurnsKeep(inp, s);
      if !s.needLineEnd {
        DispatchKeeps(inp, s);
        if s.atLineStart && !s.expectingValue {
          if "[[" <= inp.buf[s.off..] {
            HeaderTurnKeeps(inp, s, true);
          } else if inp.buf[s.off] == '[' {
            HeaderTurnKeeps(inp, s, false);
          }
        }
      }
    }
  }

  // ----- Reading a token -----

  /** What `readToken` returns. */
  datatype Read =
    | Tok(st: State, token: Token)
    | Stopped(st: State, fault: Fault)
    | Ended(st: State)

  function ReadToken(inp: Input, st: State): (r: Read)
    requires Inv(inp, st)
    ensures Inv(inp, r.st) && st.off <= r.st.off
    ensures r.Tok? ==> st.off < r.st.off && r.token.start < r.token.end <= |inp.buf|
    decreases |inp.buf| - st.off
  {
    if st.err.Some? then Stopped(st, st.err.value)
    else
      TurnKeepsInv(inp, st);
      match LoopTurn(inp, st)
      case Again(next) => ReadToken(inp, next)
      case Emit(next, token) => Tok(next, token)
      case Fail(next, fault) => Stopped(next, fault)
      case Eof(next) => Ended(next)
  }
}
