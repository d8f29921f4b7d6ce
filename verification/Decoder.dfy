/** The `Decoder` object: its fields, its container storage, and its methods, each proved against the token machine. */
module Decoder {
  import opened Results
  import opened Bytes
  import opened StringParser
  import opened Lexer
  import Loops = LexerLoops
  import M = TokenMachine
  import Skipper
  import Utf8
  import SimpleArrays

  datatype Outcome = Token(token: M.Token) | Failure(fault: Fault) | EndOfInput

  /** The scan of a value's text, before any flag changes. */
  method ScanAnyValue(rest: string, inp: M.Input) returns (r: Result<M.ValueToken, Fault>)
    requires rest != ""
    ensures r == M.ScanValue(rest, inp)
  {
    hide ScanString, ScanBareValueEnd, Classify;
    if IsQuote(rest[0]) {
      var s :- Loops.ScanString(rest);
      if s.length > inp.limits.maxStringLength {
        return Err(Limit(MaxStringLength, 0, s.length));
      }
      return Ok(M.ValueToken(StringValueToken, s.length, s.ready));
    }
    var end := ScanBareValueEnd(rest);
    if end == 0 {
      return Err(Syntax(NoValue, 0));
    }
    var kind := Classify(rest[..end], inp.readsFloat);
    return if kind.Err? then Err(Syntax(kind.error, 0)) else Ok(M.ValueToken(kind.value, end, false));
  }

  /** Where a header's closing bracket stands, once the text before it has been checked. */
  method ScanHeaderText(rest: string, width: nat, isArray: bool) returns (r: Result<nat, Fault>)
    requires width <= |rest|
    ensures r == match HeaderEnd(rest, width, isArray)
                 case Err(f) => Err(f)
                 case Ok(i) =>
                   match ValidateHeaderKey(rest, width, i, true)
                   case Err(f) => Err(f)
                   case Ok(_) => Ok(i)
  {
    hide HeaderEnd, ValidateHeaderKey;
    var i :- Loops.ScanHeaderEnd(rest, width, isArray);
    var _ :- Loops.ValidateKey(rest, width, i);
    return Ok(i);
  }

  class Decoder {
    const inp: M.Input
    var off: nat
    var expectingValue: bool
    var valueNoNewline: bool
    var needSeparator: bool
    var needLineEnd: bool
    var atLineStart: bool
    var arrayDepth: nat
    var inlineDepth: nat
    // The first sixteen open containers are kept in an array, deeper ones spill.
    const containerStack: array<M.Container>
    var containerDepth: nat
    var containerExtra: seq<M.Container>
    var err: Option<Fault>

    /** The open containers, outermost first. */
    ghost function Stack(): seq<M.Container>
      reads this, containerStack
      requires Stored()
    {
      containerStack[..if containerDepth < 16 then containerDepth else 16] + containerExtra
    }

    ghost predicate Stored()
      reads this
    {
      containerStack.Length == 16 && |containerExtra| == if containerDepth < 16 then 0 else containerDepth - 16
    }

    ghost function State(): M.State
      reads this, containerStack
      requires Stored()
    {
      M.State(off, expectingValue, valueNoNewline, needSeparator, needLineEnd, atLineStart, arrayDepth, inlineDepth,
              Stack(), err)
    }

    ghost predicate Valid()
      reads this, containerStack
    {
      Stored() && M.Inv(inp, State())
    }

    /** `initDecoderBytes`. */
    constructor (inp: M.Input, maxDocumentSize: int)
      ensures Valid() && fresh(this) && fresh(containerStack) && this.inp == inp
      ensures State() == M.Opened(inp, maxDocumentSize)
    {
      this.inp, off, atLineStart := inp, 0, true;
      expectingValue, valueNoNewline, needSeparator, needLineEnd := false, false, false, false;
      arrayDepth, inlineDepth, containerDepth, containerExtra := 0, 0, 0, [];
      containerStack := new M.Container[16](_ => M.InArray);
      err := None;
      new;
      assert Stack() == [];
      if maxDocumentSize > 0 && |inp.buf| > maxDocumentSize {
        err := Some(Limit(MaxDocumentSize, 0, maxDocumentSize));
        return;
      }
      var bad := Utf8.ValidateAsciiThenScalar(inp.buf);
      if bad != |inp.buf| {
        err := Some(Syntax(NotUtf8, bad));
        return;
      }
      SkipBom();
    }

    method SkipBom()
      requires Stored() && off == 0
      modifies this`off, this`atLineStart
      ensures Stored() && State() == if M.BOM <= inp.buf then old(State()).(off := 3, atLineStart := false) else old(State())
    {
      if |inp.buf| >= 3 && inp.buf[0] as int == 0xEF && inp.buf[1] as int == 0xBB && inp.buf[2] as int == 0xBF {
        off, atLineStart := 3, false;
      }
    }

    method InnermostIsArray() returns (b: bool)
      requires Stored()
      ensures b == M.InnermostIsArray(Stack())
    {
      var n := containerDepth;
      if n == 0 {
        return false;
      }
      if n <= 16 {
        return containerStack[n - 1] == M.InArray;
      }
      return containerExtra[n - 1 - 16] == M.InArray;
    }

    method PushContainer(c: M.Container)
      requires Stored()
      modifies this`containerDepth, this`containerExtra, containerStack
      ensures Stored() && Stack() == old(Stack()) + [c]
    {
      var n := containerDepth;
      if n < 16 {
        containerStack[n] := c;
      } else {
        containerExtra := containerExtra + [c];
      }
      containerDepth := n + 1;
    }

    /** Pops the innermost container when it matches `want`; otherwise the storage is left alone. */
    method PopContainer(want: M.Container)
      requires Stored()
      modifies this`containerDepth, this`containerExtra
      ensures Stored() && Stack() == M.Pop(old(Stack()), want)
    {
      var n := containerDepth;
      if n == 0 {
        return;
      }
      if n <= 16 {
        if containerStack[n - 1] != want {
          return;
        }
      } else {
        var idx := n - 1 - 16;
        if containerExtra[idx] != want {
          return;
        }
        containerExtra := containerExtra[..idx];
      }
      containerDepth := n - 1;
    }

    method SkipSpaces()
      requires Stored()
      modifies this`off, this`atLineStart, this`needLineEnd
      ensures Stored() && State() == M.SkipSpaces(inp.buf, old(State()))
    {
      hide M.SkipSpaces;
      var buf := inp.buf;
      ghost var goal := M.SkipSpaces(buf, State());
      while off < |buf|
        invariant Stored() && goal == M.SkipSpaces(buf, State())
        invariant unchanged(this`containerDepth, this`containerExtra, containerStack)
      {
        var b := buf[off];
        M.SpacesUnfold(buf, State());
        if b > ' ' {
          return;
        }
        if b == ' ' || b == '\t' {
          off := off + 1;
        } else if b == '\n' {
          if valueNoNewline {
            return;
          }
          off, atLineStart, needLineEnd := off + 1, true, false;
        } else if b == '\r' && off + 1 < |buf| && buf[off + 1] == '\n' {
          if valueNoNewline {
            return;
          }
          off, atLineStart, needLineEnd := off + 2, true, false;
        } else {
          return;
        }
      }
      M.SpacesUnfold(buf, State());
    }

    /** Records an error, unless it is a bad string, and reports it. */
    method Fail(f: Fault) returns (r: Outcome)
      requires Stored()
      modifies this`err
      ensures Stored() && State() == M.Record(old(State()), f) && r == Failure(f)
    {
      if !f.BadString? {
        err := Some(f);
      }
      r := Failure(f);
    }

    /** The state and the answer of a turn that ends a call. */
    ghost predicate Ends(turn: M.Turn, r: Outcome)
      reads this, containerStack
    {
      Stored() && State() == turn.st && match turn
                                       case Emit(_, t) => r == Token(t)
                                       case Fail(_, f) => r == Failure(f)
                                       case Eof(_) => r == EndOfInput
                                       case Again(_) => false
    }

    method ScanCommentToken() returns (r: Outcome)
      requires Stored() && off < |inp.buf|
      modifies this`off, this`atLineStart, this`err
      ensures Ends(M.CommentTurn(inp, old(State())), r)
    {
      hide ScanComment;
      var start := off;
      var end := ScanComment(inp.buf[start..]);
      if end.Err? {
        r := Fail(At(end.error, start));
        return;
      }
      off, atLineStart := start + end.value, false;
      r := Token(M.Token(Comment, start, off, false));
    }

    method ScanKeyToken() returns (r: Outcome)
      requires Stored() && off < |inp.buf| && !Blank(inp.buf[off])
      modifies this`off, this`atLineStart, this`expectingValue, this`valueNoNewline, this`needLineEnd, this`err
      ensures Ends(M.KeyTurn(inp, old(State())), r)
    {
      hide ScanKey;
      var start := off;
      var key := Loops.ScanKey(inp.buf[start..], inp.limits.maxKeyLength);
      if key.Err? {
        r := Fail(At(key.error, start));
        return;
      }
      off, atLineStart := start + key.value.next, false;
      expectingValue, valueNoNewline, needLineEnd := true, true, false;
      r := Token(M.Token(Key, start, start + key.value.length, false));
    }

    /** The flags after a complete value. */
    method FinishValue(end: nat)
      requires Stored()
      modifies this`off, this`atLineStart, this`expectingValue, this`valueNoNewline, this`needSeparator, this`needLineEnd
      ensures Stored() && State() == M.AfterValue(old(State()), end)
    {
      off, atLineStart, valueNoNewline := end, false, false;
      expectingValue := InnermostIsArray();
      needSeparator, needLineEnd := containerDepth > 0, containerDepth == 0;
    }

    method ScanValueToken() returns (r: Outcome)
      requires Stored() && off < |inp.buf|
      modifies this`off, this`atLineStart, this`expectingValue, this`valueNoNewline, this`needSeparator,
               this`needLineEnd, this`err
      ensures Ends(M.ValueTurn(inp, old(State())), r)
    {
      hide M.ScanValue;
      var start := off;
      var value := ScanAnyValue(inp.buf[start..], inp);
      if value.Err? {
        r := Fail(At(value.error, start));
        return;
      }
      var end := start + value.value.length;
      FinishValue(end);
      r := Token(M.Token(value.value.kind, start, end, value.value.ready));
    }

    method ScanArrayStart() returns (r: Outcome)
      requires Stored()
      modifies this, containerStack
      ensures Ends(M.ArrayStartTurn(inp, old(State())), r)
    {
      hide M.ArrayEndTurn, M.InlineStartTurn, M.InlineEndTurn, M.ScanValue;
      ghost var stack := Stack();
      var start := off;
      off, atLineStart, arrayDepth := start + 1, false, arrayDepth + 1;
      if inp.limits.maxNestedDepth > 0 && arrayDepth > inp.limits.maxNestedDepth {
        err := Some(Limit(MaxNestedDepth, start, start + 1));
      }
      assert Stack() == stack;
      PushContainer(M.InArray);
      expectingValue, valueNoNewline, needSeparator := true, false, false;
      assert Stack() == stack + [M.InArray];
      r := Token(M.Token(ArrayStart, start, start + 1, false));
    }

    method ScanInlineTableStart() returns (r: Outcome)
      requires Stored()
      modifies this, containerStack
      ensures Ends(M.InlineStartTurn(old(State())), r)
    {
      var start := off;
      off, atLineStart, inlineDepth := start + 1, false, inlineDepth + 1;
      PushContainer(M.InInline);
      expectingValue, valueNoNewline, needSeparator := false, false, false;
      r := Token(M.Token(InlineTableStart, start, start + 1, false));
    }

    method ScanArrayEnd() returns (r: Outcome)
      requires Stored()
      modifies this
      ensures Ends(M.ArrayEndTurn(old(State())), r)
    {
      hide M.Pop, M.AfterValue;
      var start := off;
      if arrayDepth > 0 {
        arrayDepth := arrayDepth - 1;
      }
      PopContainer(M.InArray);
      FinishValue(start + 1);
      r := Token(M.Token(ArrayEnd, start, start + 1, false));
    }

    method ScanInlineTableEnd() returns (r: Outcome)
      requires Stored()
      modifies this
      ensures Ends(M.InlineEndTurn(old(State())), r)
    {
      hide M.Pop, M.AfterValue;
      var start := off;
      if inlineDepth > 0 {
        inlineDepth := inlineDepth - 1;
      }
      PopContainer(M.InInline);
      FinishValue(start + 1);
      r := Token(M.Token(InlineTableEnd, start, start + 1, false));
    }

    /** `scanTableHeader` and `scanArrayTableHeader`. */
    method ScanHeader(isArray: bool) returns (r: Outcome)
      requires Stored() && off + (if isArray then 2 else 1) <= |inp.buf|
      modifies this`off, this`atLineStart, this`expectingValue, this`needLineEnd, this`err
      ensures Ends(M.HeaderTurn(inp, old(State()), isArray), r)
    {
      hide HeaderEnd, ValidateHeaderKey, M.HeaderTokenTurn;
      var start, width := off, if isArray then 2 else 1;
      var i := ScanHeaderText(inp.buf[start..], width, isArray);
      if i.Err? {
        r := Fail(At(i.error, start));
        return;
      }
      r := FinishHeader(width, i.value + width);
    }

    /** The header token of `length` bytes; a key too long is found after the decoder has moved past it. */
    method FinishHeader(width: nat, length: nat) returns (r: Outcome)
      requires Stored() && 1 <= width <= 2 && length >= width
      modifies this`off, this`atLineStart, this`expectingValue, this`needLineEnd, this`err
      ensures Ends(M.HeaderTokenTurn(inp.limits, old(State()), width, length), r)
    {
      var start := off;
      off, atLineStart := start + length, false;
      if length - 2 * width > inp.limits.maxKeyLength {
        r := Fail(Limit(MaxKeyLength, start + width, start + length - width));
        return;
      }
      expectingValue, needLineEnd := false, true;
      r := Token(M.Token(if width == 2 then ArrayTableHeader else TableHeader, start, off, false));
    }

    /** The dispatch on the first byte of a token; a comma is consumed and goes round again. */
    method Dispatch() returns (again: bool, r: Outcome)
      requires Stored() && off < |inp.buf| && !Blank(inp.buf[off])
      modifies this, containerStack
      ensures again ==> Stored() && M.Dispatch(inp, old(State())) == M.Again(State())
      ensures !again ==> Ends(M.Dispatch(inp, old(State())), r)
    {
      again, r := false, EndOfInput;
      var inArray := InnermostIsArray();
      var ch := inp.buf[off];
      if ch == '[' || ch == '{' {
        if inArray && !expectingValue {
          r := Fail(Syntax(ExpectedComma, off));
        } else if ch == '[' {
          r := ScanArrayStart();
        } else {
          r := ScanInlineTableStart();
        }
      } else if ch == ']' {
        r := ScanArrayEnd();
      } else if ch == '}' {
        r := ScanInlineTableEnd();
      } else if ch == '#' {
        r := ScanCommentToken();
      } else if ch == '=' {
        r := Fail(Syntax(UnexpectedEquals, off));
      } else if ch == ',' {
        if !needSeparator {
          r := Fail(Syntax(UnexpectedComma, off));
        } else {
          off, atLineStart, needSeparator, expectingValue := off + 1, false, false, inArray;
          again := true;
        }
      } else if expectingValue {
        if needSeparator && inArray {
          r := Fail(Syntax(ExpectedArraySeparator, off));
        } else {
          r := ScanValueToken();
        }
      } else if needSeparator && containerDepth > 0 {
        r := Fail(Syntax(ExpectedInlineSeparator, off));
      } else {
        r := ScanKeyToken();
      }
    }

    /** One turn of the loop of `readToken`. */
    method LoopTurn() returns (again: bool, r: Outcome)
      requires Valid()
      modifies this, containerStack
      ensures again ==> Stored() && M.LoopTurn(inp, old(State())) == M.Again(State())
      ensures !again ==> Ends(M.LoopTurn(inp, old(State())), r)
    {
      hide M.Dispatch, M.HeaderTurn, M.CommentTurn;
      again, r := false, EndOfInput;
      if off < |inp.buf| {
        M.SkipSpacesStops(inp.buf, State());
        SkipSpaces();
      }
      if off >= |inp.buf| {
        if expectingValue {
          r := Fail(Syntax(ExpectedValue, off));
        }
        return;
      }
      if inp.buf[off] == '\r' && (off + 1 >= |inp.buf| || inp.buf[off + 1] != '\n') {
        r := Fail(Syntax(LoneCarriageReturn, off));
      } else if needLineEnd {
        if inp.buf[off] == '#' {
          r := ScanCommentToken();
        } else if inp.buf[off] == '\n' {
          again := true;
        } else {
          r := Fail(Syntax(ExpectedNewline, off));
        }
      } else if atLineStart && !expectingValue && "[[" <= inp.buf[off..] {
        r := ScanHeader(true);
      } else if atLineStart && !expectingValue && inp.buf[off] == '[' {
        r := ScanHeader(false);
      } else {
        again, r := Dispatch();
      }
    }

    /** `readToken`. Every call ends: the invariant forbids the turn that would not move forward. */
    method ReadToken() returns (r: Outcome)
      requires Valid()
      modifies this, containerStack
      ensures Valid()
      ensures match M.ReadToken(inp, old(State()))
              case Tok(st, t) => State() == st && r == Token(t)
              case Stopped(st, f) => State() == st && r == Failure(f)
              case Ended(st) => State() == st && r == EndOfInput
    {
      hide M.LoopTurn;
      if err.Some? {
        return Failure(err.value);
      }
      var again := true;
      r := EndOfInput;
      while again
        invariant Stored()
        invariant again ==> Valid() && err.None? && M.ReadToken(inp, old(State())) == M.ReadToken(inp, State())
        invariant !again ==> match M.ReadToken(inp, old(State()))
                             case Tok(st, t) => State() == st && r == Token(t)
                             case Stopped(st, f) => State() == st && r == Failure(f)
                             case Ended(st) => State() == st && r == EndOfInput
        decreases if again then 1 + |inp.buf| - off else 0
      {
        M.TurnKeepsInv(inp, State());
        again, r := LoopTurn();
      }
    }

    /** `skipStructuralValueFast`: whether the value was an array or inline table, and if so, whether it could be skipped. */
    method SkipStructuralValueFast() returns (handled: bool, r: Result<(), Fault>)
      requires Valid()
      modifies this`off, this`atLineStart, this`expectingValue, this`valueNoNewline, this`needSeparator,
               this`needLineEnd, this`err
      ensures Stored()
      ensures match Skipper.SkipFast(inp, old(State()))
              case None => !handled && r == if old(err).Some? then Err(old(err).value) else Ok(())
              case Some(Ok(next)) => handled && r == Ok(()) && State() == next
              case Some(Err(f)) => handled && r == Err(f)
    {
      hide Skipper.SkipStructural;
      SkipSpaces();
      if off >= |inp.buf| || err.Some? {
        return false, if err.Some? then Err(err.value) else Ok(());
      }
      if inp.buf[off] != '[' && inp.buf[off] != '{' {
        return false, Ok(());
      }
      var end := Skipper.ScanSkippedStructuralValue(inp, off, arrayDepth, inlineDepth);
      if end.Err? {
        var _ := Fail(end.error);
        return true, Err(end.error);
      }
      FinishValue(end.value);
      return true, Ok(());
    }

    /** `finishTopLevelArrayValue`. */
    method FinishTopLevelArrayValue(end: nat)
      requires Stored() && end <= |inp.buf|
      modifies this`off, this`atLineStart, this`expectingValue, this`valueNoNewline, this`needSeparator, this`needLineEnd
      ensures Stored() && State() == SimpleArrays.FinishTopLevel(inp.buf, old(State()), end)
    {
      var buf := inp.buf;
      ghost var before := State();
      atLineStart, expectingValue, valueNoNewline, needSeparator, needLineEnd := false, false, false, false, true;
      var i := end;
      while i < |buf| && Blank(buf[i])
        invariant end <= i <= |buf|
        invariant SimpleArrays.FinishTopLevel(buf, before, end) == SimpleArrays.FinishTopLevel(buf, before, i)
      {
        i := i + 1;
      }
      if i < |buf| && buf[i] == '\n' {
        off, atLineStart, needLineEnd := i + 1, true, false;
      } else if i + 1 < |buf| && buf[i] == '\r' && buf[i + 1] == '\n' {
        off, atLineStart, needLineEnd := i + 2, true, false;
      } else {
        off := i;
      }
    }

    /** `skipSimpleStringArrayValue`, at the bracket of a top-level value. */
    method SkipSimpleStringArrayValue() returns (skipped: bool, r: Result<(), Fault>)
      requires Valid() && err.None? && off < |inp.buf| && inp.buf[off] == '['
      modifies this`off, this`atLineStart, this`expectingValue, this`valueNoNewline, this`needSeparator,
               this`needLineEnd, this`err
      ensures Stored()
      ensures match SimpleArrays.SimpleArray(inp, old(off) + 1, true)
              case Accepts(end) => skipped && r == Ok(()) && end <= |inp.buf|
                                   && State() == SimpleArrays.FinishTopLevel(inp.buf, old(State()), end)
              case Declines => !skipped && r == Ok(()) && State() == old(State())
              case Rejects(f) => !skipped && r == Err(f) && State() == M.Record(old(State()), f)
    {
      hide SimpleArrays.SimpleStep;
      var turn := SimpleArrays.SimpleStep(inp, off + 1, true);
      while turn.More?
        invariant State() == old(State()) && (turn.More? ==> off < turn.i <= |inp.buf|)
        invariant SimpleArrays.SimpleArray(inp, off + 1, true)
               == match turn
                  case More(i, expectElement) => SimpleArrays.SimpleArray(inp, i, expectElement)
                  case Stop(simple) => simple
        decreases if turn.More? then 1 + |inp.buf| - turn.i else 0
      {
        turn := SimpleArrays.SimpleStep(inp, turn.i, turn.expectElement);
      }
      SimpleArrays.SimpleArrayEnds(inp, off + 1, true);
      match turn.simple {
        case Accepts(end) =>
          FinishTopLevelArrayValue(end);
          return true, Ok(());
        case Declines => return false, Ok(());
        case Rejects(f) =>
          var _ := Fail(f);
          return false, Err(f);
      }
    }
  }
}
