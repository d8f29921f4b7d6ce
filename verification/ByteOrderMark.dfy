/**
 What a byte order mark does to a document. The mark is stepped over, but stepping over it also clears the flag that
 says a line starts there, and only at a line start is a bracket a header: a document whose first line opens with a
 bracket is read differently behind a mark, and every other document is read the same.
 */
module ByteOrderMark {
  import opened Results
  import opened Bytes
  import opened StringParser
  import opened Utf8
  import opened Lexer
  import opened TokenMachine
  import opened TokenRuns

  // ----- Moving a run along its input -----

  function ShiftedError(err: Option<Fault>, k: nat): Option<Fault> {
    match err
    case None => None
    case Some(f) => Some(At(f, k))
  }

  function Shifted(st: State, k: nat): State {
    st.(off := st.off + k, err := ShiftedError(st.err, k))
  }

  function ShiftedToken(t: Token, k: nat): Token {
    t.(start := t.start + k, end := t.end + k)
  }

  function ShiftedTurn(turn: Turn, k: nat): Turn {
    match turn
    case Again(st) => Again(Shifted(st, k))
    case Emit(st, t) => Emit(Shifted(st, k), ShiftedToken(t, k))
    case Fail(st, f) => Fail(Shifted(st, k), At(f, k))
    case Eof(st) => Eof(Shifted(st, k))
  }

  function ShiftedRead(r: Read, k: nat): Read {
    match r
    case Tok(st, t) => Tok(Shifted(st, k), ShiftedToken(t, k))
    case Stopped(st, f) => Stopped(Shifted(st, k), At(f, k))
    case Ended(st) => Ended(Shifted(st, k))
  }

  /** `b` is `a` behind `k` more bytes. */
  ghost predicate Behind(a: Input, b: Input, k: nat) {
    k <= |b.buf| && b.buf[k..] == a.buf && b.limits == a.limits && b.readsFloat == a.readsFloat
  }

  lemma RestBehind(a: Input, b: Input, k: nat, off: nat)
    requires Behind(a, b, k) && off <= |a.buf|
    ensures |b.buf| == |a.buf| + k && b.buf[off + k..] == a.buf[off..]
    ensures off < |a.buf| ==> b.buf[off + k] == a.buf[off]
  {
    assert b.buf[k..][off..] == b.buf[off + k..];
  }

  lemma SpaceStepShifts(a: Input, b: Input, k: nat, st: State)
    requires Behind(a, b, k) && st.off < |a.buf|
    ensures st.off + k < |b.buf| && SpaceStep(b.buf, Shifted(st, k)) == Shifted(SpaceStep(a.buf, st), k)
  {
    hide Behind, ShiftedError;
    RestBehind(a, b, k, st.off);
  }

  lemma {:induction false} SkipSpacesShifts(a: Input, b: Input, k: nat, st: State)
    requires Behind(a, b, k) && st.off <= |a.buf|
    ensures SkipSpaces(b.buf, Shifted(st, k)) == Shifted(SkipSpaces(a.buf, st), k)
    decreases |a.buf| - st.off
  {
    hide Behind, SpaceStep, ShiftedError;
    RestBehind(a, b, k, st.off);
    if st.off < |a.buf| {
      SpaceStepShifts(a, b, k, st);
      if SpaceStep(a.buf, st) != st {
        SkipSpacesShifts(a, b, k, SpaceStep(a.buf, st));
      }
    }
  }

  lemma AtAt(f: Fault, off: nat, k: nat)
    ensures At(f, off + k) == At(At(f, off), k)
  {
  }

  /** A scan that fails leaves the state, moved along, and its fault, moved along. */
  lemma FailedShifts(st: State, f: Fault, off: nat, k: nat)
    requires st.err.None?
    ensures Failed(Shifted(st, k), At(f, off + k)) == ShiftedTurn(Failed(st, At(f, off)), k)
  {
    AtAt(f, off, k);
  }

  lemma SyntaxShifts(st: State, k: nat)
    requires st.err.None?
    ensures forall problem ::
              Failed(Shifted(st, k), Syntax(problem, st.off + k)) == ShiftedTurn(Failed(st, Syntax(problem, st.off)), k)
  {
  }

  lemma CommentShifts(a: Input, b: Input, k: nat, st: State)
    requires Behind(a, b, k) && st.off < |a.buf| && st.err.None?
    ensures st.off + k < |b.buf| && CommentTurn(b, Shifted(st, k)) == ShiftedTurn(CommentTurn(a, st), k)
  {
    hide ScanComment, Behind, At, Failed;
    RestBehind(a, b, k, st.off);
    var scan := ScanComment(a.buf[st.off..]);
    if scan.Err? {
      FailedShifts(st, scan.error, st.off, k);
    }
  }

  lemma KeyShifts(a: Input, b: Input, k: nat, st: State)
    requires Behind(a, b, k) && st.off < |a.buf| && !Blank(a.buf[st.off]) && st.err.None?
    ensures st.off + k < |b.buf| && !Blank(b.buf[st.off + k])
    ensures KeyTurn(b, Shifted(st, k)) == ShiftedTurn(KeyTurn(a, st), k)
  {
    hide ScanKey, Behind, At, Failed;
    RestBehind(a, b, k, st.off);
    var scan := ScanKey(a.buf[st.off..], a.limits.maxKeyLength);
    assert b.limits == a.limits by {
      SameLimits(a, b, k);
    }
    if scan.Err? {
      FailedShifts(st, scan.error, st.off, k);
    }
  }

  lemma SameLimits(a: Input, b: Input, k: nat)
    requires Behind(a, b, k)
    ensures b.limits == a.limits && forall rest :: rest != "" ==> ScanValue(rest, b) == ScanValue(rest, a)
  {
    hide ScanString, ScanBareValueEnd, Classify;
  }

  lemma ValueShifts(a: Input, b: Input, k: nat, st: State)
    requires Behind(a, b, k) && st.off < |a.buf| && st.err.None?
    ensures st.off + k < |b.buf| && ValueTurn(b, Shifted(st, k)) == ShiftedTurn(ValueTurn(a, st), k)
  {
    hide ScanValue, Behind, At, Failed;
    RestBehind(a, b, k, st.off);
    SameLimits(a, b, k);
    var scan := ScanValue(a.buf[st.off..], a);
    if scan.Err? {
      FailedShifts(st, scan.error, st.off, k);
    }
  }

  lemma BracketsShift(a: Input, b: Input, k: nat, st: State)
    requires Behind(a, b, k) && st.err.None?
    ensures ArrayStartTurn(b, Shifted(st, k)) == ShiftedTurn(ArrayStartTurn(a, st), k)
    ensures InlineStartTurn(Shifted(st, k)) == ShiftedTurn(InlineStartTurn(st), k)
    ensures ArrayEndTurn(Shifted(st, k)) == ShiftedTurn(ArrayEndTurn(st), k)
    ensures InlineEndTurn(Shifted(st, k)) == ShiftedTurn(InlineEndTurn(st), k)
  {
  }

  lemma BracketDispatchShifts(a: Input, b: Input, k: nat, st: State)
    requires Behind(a, b, k) && st.off < |a.buf| && st.off + k < |b.buf| && st.err.None?
    requires b.buf[st.off + k] == a.buf[st.off] && !Blank(a.buf[st.off])
    requires var ch := a.buf[st.off]; ch == '[' || ch == ']' || ch == '{' || ch == '}'
    ensures Dispatch(b, Shifted(st, k)) == ShiftedTurn(Dispatch(a, st), k)
  {
    hide CommentTurn, KeyTurn, ValueTurn, ArrayStartTurn, ArrayEndTurn, InlineStartTurn, InlineEndTurn, Behind, Failed;
    SyntaxShifts(st, k);
    BracketsShift(a, b, k, st);
  }

  lemma DispatchShifts(a: Input, b: Input, k: nat, st: State)
    requires Behind(a, b, k) && st.off < |a.buf| && !Blank(a.buf[st.off]) && st.err.None?
    ensures st.off + k < |b.buf| && b.buf[st.off + k] == a.buf[st.off]
    ensures Dispatch(b, Shifted(st, k)) == ShiftedTurn(Dispatch(a, st), k)
  {
    hide CommentTurn, KeyTurn, ValueTurn, ArrayStartTurn, ArrayEndTurn, InlineStartTurn, InlineEndTurn, Behind, Failed;
    RestBehind(a, b, k, st.off);
    var ch := a.buf[st.off];
    if ch == '[' || ch == ']' || ch == '{' || ch == '}' {
      BracketDispatchShifts(a, b, k, st);
    } else if ch == '#' {
      CommentShifts(a, b, k, st);
    } else {
      SyntaxShifts(st, k);
      if ch != '=' && ch != ',' {
        ValueShifts(a, b, k, st);
        KeyShifts(a, b, k, st);
      }
    }
  }

  lemma HeaderShifts(a: Input, b: Input, k: nat, st: State, isArray: bool)
    requires Behind(a, b, k) && st.off + (if isArray then 2 else 1) <= |a.buf| && st.err.None?
    ensures |b.buf| == |a.buf| + k
    ensures HeaderTurn(b, Shifted(st, k), isArray) == ShiftedTurn(HeaderTurn(a, st, isArray), k)
  {
    hide HeaderEnd, ValidateHeaderKey, HeaderTokenTurn, Behind, At, Failed;
    RestBehind(a, b, k, st.off);
    SameLimits(a, b, k);
    var rest, width := a.buf[st.off..], if isArray then 2 else 1;
    var i := HeaderEnd(rest, width, isArray);
    if i.Err? {
      FailedShifts(st, i.error, st.off, k);
    } else if ValidateHeaderKey(rest, width, i.value, true).Err? {
      FailedShifts(st, ValidateHeaderKey(rest, width, i.value, true).error, st.off, k);
    } else {
      HeaderTokenShifts(a.limits, st, width, i.value + width, k);
    }
  }

  lemma HeaderTokenShifts(limits: Limits, st: State, width: nat, length: nat, k: nat)
    requires 1 <= width <= 2 && length >= width && st.err.None?
    ensures HeaderTokenTurn(limits, Shifted(st, k), width, length)
         == ShiftedTurn(HeaderTokenTurn(limits, st, width, length), k)
  {
  }

  lemma TurnAtShifts(a: Input, b: Input, k: nat, st: State)
    requires Behind(a, b, k) && st.off < |a.buf| && !Blank(a.buf[st.off]) && st.err.None?
    ensures st.off + k < |b.buf| && !Blank(b.buf[st.off + k])
    ensures TurnAt(b, Shifted(st, k)) == ShiftedTurn(TurnAt(a, st), k)
  {
    hide Dispatch, CommentTurn, HeaderTurn, Behind, Failed;
    RestBehind(a, b, k, st.off);
    RestBehind(a, b, k, st.off + 1);
    SyntaxShifts(st, k);
    var header := st.atLineStart && !st.expectingValue;
    if BareCarriageReturn(a.buf, st.off) {
    } else if st.needLineEnd {
      CommentShifts(a, b, k, st);
    } else if header && "[[" <= a.buf[st.off..] {
      HeaderShifts(a, b, k, st, true);
    } else if header && a.buf[st.off] == '[' {
      HeaderShifts(a, b, k, st, false);
    } else {
      DispatchShifts(a, b, k, st);
    }
  }

  lemma TurnShifts(a: Input, b: Input, k: nat, st: State)
    requires Behind(a, b, k) && st.off <= |a.buf| && st.err.None?
    ensures LoopTurn(b, Shifted(st, k)) == ShiftedTurn(LoopTurn(a, st), k)
  {
    hide SkipSpaces, TurnAt, Behind;
    var s := SkipSpaces(a.buf, st);
    SkipSpacesShifts(a, b, k, st);
    SkipSpacesStops(a.buf, st);
    RestBehind(a, b, k, st.off);
    if s.off < |a.buf| {
      TurnAtShifts(a, b, k, s);
    }
  }

  lemma InvShifts(a: Input, b: Input, k: nat, st: State)
    requires Behind(a, b, k)
    ensures Inv(a, st) <==> Inv(b, Shifted(st, k))
  {
  }

  lemma {:induction false} ReadTokenShifts(a: Input, b: Input, k: nat, st: State)
    requires Behind(a, b, k) && Inv(a, st)
    ensures Inv(b, Shifted(st, k)) && ReadToken(b, Shifted(st, k)) == ShiftedRead(ReadToken(a, st), k)
    decreases |a.buf| - st.off
  {
    hide LoopTurn, Behind, Inv;
    InvShifts(a, b, k, st);
    assert st.off <= |a.buf| by {
      OffsetInside(a, st);
    }
    if st.err.None? {
      TurnShifts(a, b, k, st);
      TurnKeepsInv(a, st);
      if LoopTurn(a, st).Again? {
        ReadTokenShifts(a, b, k, LoopTurn(a, st).st);
      }
    }
  }

  lemma OffsetInside(a: Input, st: State)
    requires Inv(a, st)
    ensures st.off <= |a.buf|
  {
  }

  // ----- Runs that read the same -----

  /** The same way to end: at the end of the input, or with the same fault, moved along. */
  predicate SameEnd(a: Read, b: Read, k: nat) {
    match a
    case Tok(_, _) => b.Tok?
    case Stopped(_, f) => b.Stopped? && b.fault == At(f, k)
    case Ended(_) => b.Ended?
  }

  predicate SameRun(a: TokenRun, b: TokenRun, k: nat) {
    && |a.tokens| == |b.tokens|
    && (forall i :: 0 <= i < |a.tokens| ==> b.tokens[i] == ShiftedToken(a.tokens[i], k))
    && SameEnd(a.outcome, b.outcome, k)
  }

  lemma {:induction false} RunShifts(a: Input, b: Input, k: nat, st: State)
    requires Behind(a, b, k) && Inv(a, st)
    ensures Inv(b, Shifted(st, k)) && SameRun(Tokenize(a, st), Tokenize(b, Shifted(st, k)), k)
    decreases |a.buf| - st.off
  {
    hide ReadToken, Inv, Behind;
    ReadTokenShifts(a, b, k, st);
    OffsetInside(a, ReadToken(a, st).st);
    if ReadToken(a, st).Tok? {
      RunShifts(a, b, k, ReadToken(a, st).st);
    }
  }

  // ----- Where the line-start flag matters -----

  /** The first line opens with a bracket. */
  predicate HeaderFirst(buf: string) {
    var n := LeadingBlanks(buf);
    n < |buf| && buf[n] == '['
  }

  /** On the first line the blanks are skipped and the flag is kept; a line ending sets it whatever it was. */
  lemma {:induction false} FirstSpaces(buf: string, off: nat, flag: bool)
    requires off <= |buf|
    ensures var n := off + LeadingBlanks(buf[off..]);
      SkipSpaces(buf, Start(off, flag)) == if n < |buf| then SkipSpaces(buf, Start(n, flag)) else Start(n, flag)
    decreases |buf| - off
  {
    if off < |buf| && Blank(buf[off]) {
      assert buf[off..][1..] == buf[off + 1..];
      FirstSpaces(buf, off + 1, flag);
    }
  }

  lemma FirstLineEnds(buf: string, n: nat)
    requires n < |buf| && !Blank(buf[n])
    ensures if buf[n] == '\n' || StartsCrLf(buf[n..]) then
              SkipSpaces(buf, Start(n, true)) == SkipSpaces(buf, Start(n, false))
            else forall flag :: SkipSpaces(buf, Start(n, flag)) == Start(n, flag)
  {
  }

  /** The turns that do not look at the flag; a failed one keeps it. */
  lemma FlagIgnored(inp: Input, n: nat)
    requires n < |inp.buf| && inp.buf[n] != '[' && !Blank(inp.buf[n])
    ensures var a, b := TurnAt(inp, Start(n, true)), TurnAt(inp, Start(n, false));
      && !a.Again? && !b.Again? && !a.Eof? && !b.Eof?
      && (a.Emit? ==> a == b)
      && (a.Fail? ==> b.Fail? && a.fault == b.fault)
  {
    hide ScanComment, ScanKey, ScanValue;
  }

  lemma BracketWithoutFlag(inp: Input, n: nat)
    requires n < |inp.buf| && inp.buf[n] == '['
    ensures TurnAt(inp, Start(n, false)).Emit? && TurnAt(inp, Start(n, false)).token.kind.ArrayStart?
    ensures var a := TurnAt(inp, Start(n, true));
      a.Fail? || (a.Emit? && (a.token.kind.TableHeader? || a.token.kind.ArrayTableHeader?))
  {
    hide HeaderEnd, ValidateHeaderKey;
  }

  /** The first read of a document with the flag and without it. */
  lemma FirstRead(inp: Input)
    ensures Inv(inp, Start(0, true)) && Inv(inp, Start(0, false))
    ensures var a, b := ReadToken(inp, Start(0, true)), ReadToken(inp, Start(0, false));
      if HeaderFirst(inp.buf) then
        b.Tok? && b.token.kind.ArrayStart?
        && (a.Stopped? || (a.Tok? && (a.token.kind.TableHeader? || a.token.kind.ArrayTableHeader?)))
      else if a.Tok? then b == a
      else SameEnd(a, b, 0)
  {
    hide TurnAt, SkipSpaces;
    var buf := inp.buf;
    assert buf[0..] == buf;
    FirstSpaces(buf, 0, true);
    FirstSpaces(buf, 0, false);
    var n := LeadingBlanks(buf);
    if n < |buf| {
      FirstLineEnds(buf, n);
      SkipSpacesStops(buf, Start(n, true));
      if buf[n] == '[' {
        BracketWithoutFlag(inp, n);
      } else {
        FlagIgnored(inp, n);
      }
    }
  }

  /** A document that opens behind a mark opens without it. */
  lemma OpensWithoutBom(a: Input, b: Input, maxDocumentSize: int)
    requires b.buf == BOM + a.buf && Behind(a, b, 3) && Opened(b, maxDocumentSize).err.None?
    ensures Opened(b, maxDocumentSize) == Start(3, false)
    ensures !(BOM <= a.buf) ==> Opened(a, maxDocumentSize) == Start(0, true)
  {
    assert SequenceSize(b.buf, 0) == 3;
    FirstIllFormedShifts(b.buf, 3, 3);
  }

  /**
   A byte order mark in front of a document leaves the run of tokens as it was, each moved by three bytes, exactly when
   the first line of the document does not open with a bracket.
   */
  lemma BomKeepsTokensIff(a: Input, b: Input, maxDocumentSize: int)
    requires b.buf == BOM + a.buf && Behind(a, b, 3) && !(BOM <= a.buf) && Opened(b, maxDocumentSize).err.None?
    ensures Inv(a, Opened(a, maxDocumentSize)) && Inv(b, Opened(b, maxDocumentSize))
    ensures SameRun(Tokenize(a, Opened(a, maxDocumentSize)), Tokenize(b, Opened(b, maxDocumentSize)), 3)
       <==> !HeaderFirst(a.buf)
  {
    hide ReadToken, Behind, HeaderFirst;
    OpensWithoutBom(a, b, maxDocumentSize);
    FirstRead(a);
    ReadTokenShifts(a, b, 3, Start(0, false));
    assert Shifted(Start(0, false), 3) == Start(3, false);
    RunShifts(a, b, 3, Start(0, false));
    var plain, marked := Tokenize(a, Start(0, true)), Tokenize(b, Start(3, false));
    if HeaderFirst(a.buf) {
      assert marked.tokens[0].kind.ArrayStart?;
      assert plain.tokens == [] || !plain.tokens[0].kind.ArrayStart?;
    }
  }

  /** Behind a mark, the header a document opens with is read as the start of an array. */
  lemma HeaderBehindBomIsArray(a: Input, b: Input, maxDocumentSize: int)
    requires b.buf == BOM + a.buf && Behind(a, b, 3) && Opened(b, maxDocumentSize).err.None? && HeaderFirst(a.buf)
    ensures var st := Opened(b, maxDocumentSize);
      Inv(b, st) && ReadToken(b, st).Tok? && ReadToken(b, st).token.kind.ArrayStart?
  {
    hide ReadToken, Behind, HeaderFirst;
    OpensWithoutBom(a, b, maxDocumentSize);
    FirstRead(a);
    ReadTokenShifts(a, b, 3, Start(0, false));
    assert Shifted(Start(0, false), 3) == Start(3, false);
  }
}
