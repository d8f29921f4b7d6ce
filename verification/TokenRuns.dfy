/** What holds of whole runs of the tokenizer: errors are final, and tokenization loses no byte. */
module TokenRuns {
  import opened Results
  import opened Bytes
  import opened StringParser
  import opened Lexer
  import opened TokenMachine

  // ----- Errors are final -----

  lemma {:induction false} SkipSpacesIdempotent(buf: string, st: State)
    ensures SkipSpaces(buf, SkipSpaces(buf, st)) == SkipSpaces(buf, st)
    decreases |buf| - st.off
  {
    hide SpaceStep;
    if st.off < |buf| && SpaceStep(buf, st) != st {
      SkipSpacesIdempotent(buf, SpaceStep(buf, st));
    }
  }

  /** A failed dispatch leaves the state it started from, but for the recorded error. */
  lemma DispatchFailsInPlace(inp: Input, st: State)
    requires st.off < |inp.buf| && !Blank(inp.buf[st.off]) && Dispatch(inp, st).Fail?
    ensures Dispatch(inp, st).st == Record(st, Dispatch(inp, st).fault)
  {
    hide ScanComment, ScanKey, ScanValue;
  }

  lemma TurnFailsInPlace(inp: Input, st: State)
    requires st.off < |inp.buf| && !Blank(inp.buf[st.off]) && TurnAt(inp, st).Fail?
    ensures TurnAt(inp, st).fault.BadString? ==> TurnAt(inp, st).st == st
    ensures !TurnAt(inp, st).fault.BadString? ==> TurnAt(inp, st).st.err == Some(TurnAt(inp, st).fault)
  {
    hide Dispatch, ScanComment, HeaderTurn;
    if Dispatch(inp, st).Fail? {
      DispatchFailsInPlace(inp, st);
    }
    HeaderFails(inp, st, false);
    if "[[" <= inp.buf[st.off..] {
      HeaderFails(inp, st, true);
    }
  }

  lemma HeaderFails(inp: Input, st: State, isArray: bool)
    requires st.off + (if isArray then 2 else 1) <= |inp.buf|
    ensures var turn := HeaderTurn(inp, st, isArray);
      turn.Fail? ==> if turn.fault.BadString? then turn.st == st else turn.st.err == Some(turn.fault)
  {
    hide HeaderEnd, ValidateHeaderKey;
  }

  /** After a turn that fails or finds the end, the next one does the same, recorded or not. */
  lemma StoppedTurnRepeats(inp: Input, st: State)
    requires st.err.None?
    ensures var turn := LoopTurn(inp, st);
      && (turn.Fail? ==> turn.st.err == Some(turn.fault) || (turn.st.err.None? && LoopTurn(inp, turn.st) == turn))
      && (turn.Eof? ==> turn.st.err.None? && LoopTurn(inp, turn.st) == turn)
  {
    hide SkipSpaces, TurnAt;
    SkipSpacesStops(inp.buf, st);
    SkipSpacesIdempotent(inp.buf, st);
    var s := SkipSpaces(inp.buf, st);
    if s.off < |inp.buf| {
      NotEofInside(inp, s);
      if TurnAt(inp, s).Fail? {
        TurnFailsInPlace(inp, s);
      }
    }
  }

  lemma NotEofInside(inp: Input, st: State)
    requires st.off < |inp.buf| && !Blank(inp.buf[st.off])
    ensures !TurnAt(inp, st).Eof?
  {
    hide ScanComment, HeaderEnd, ValidateHeaderKey, ScanKey, ScanValue;
  }

  /** Once `readToken` has failed or reached the end, every later call returns the same and changes nothing. */
  lemma {:induction false} OutcomeIsFinal(inp: Input, st: State)
    requires Inv(inp, st) && !ReadToken(inp, st).Tok?
    ensures ReadToken(inp, ReadToken(inp, st).st) == ReadToken(inp, st)
    decreases |inp.buf| - st.off
  {
    hide LoopTurn;
    if st.err.None? {
      TurnKeepsInv(inp, st);
      StoppedTurnRepeats(inp, st);
      if LoopTurn(inp, st).Again? {
        OutcomeIsFinal(inp, LoopTurn(inp, st).st);
      }
    }
  }

  // ----- No byte is lost -----

  predicate SeparatorByte(c: char) {
    SpaceByte(c) || c == ',' || c == '='
  }

  predicate Gap(buf: string, from: nat, to: nat) {
    from <= to <= |buf| && forall i :: from <= i < to ==> SeparatorByte(buf[i])
  }

  lemma {:induction false} SkipSpacesGap(buf: string, st: State)
    requires st.off <= |buf|
    ensures Gap(buf, st.off, SkipSpaces(buf, st).off)
    decreases |buf| - st.off
  {
    hide SpaceStep;
    if st.off < |buf| && SpaceStep(buf, st) != st {
      SpaceStepGap(buf, st);
      SkipSpacesGap(buf, SpaceStep(buf, st));
    }
  }

  lemma SpaceStepGap(buf: string, st: State)
    requires st.off < |buf|
    ensures Gap(buf, st.off, SpaceStep(buf, st).off)
  {
  }

  /** Between a key and the place its value may start there are only blanks and the equals sign. */
  lemma KeyGap(rest: string, maxKeyLength: int)
    requires rest != "" && !Blank(rest[0]) && ScanKey(rest, maxKeyLength).Ok?
    ensures var k := ScanKey(rest, maxKeyLength).value;
      forall j :: k.length <= j < k.next ==> SeparatorByte(rest[j])
  {
    hide KeyEnd, KeyParses, BareKeyAssigned, LeadingBlanks, TrimRight;
    if BareKeyAssigned(rest) {
      assert ScanKey(rest, maxKeyLength).value.length == FirstStop(rest, NotBareKeyByte);
      EqualsAfterKey(rest);
      BlanksThenEquals(rest, FirstStop(rest, NotBareKeyByte));
    } else {
      var i := KeyEnd(rest, 0).value;
      BlanksThenEquals(rest, i);
      TrimmedBlanks(rest, i);
    }
  }

  lemma EqualsAfterKey(rest: string)
    requires BareKeyAssigned(rest)
    ensures var n := FirstStop(rest, NotBareKeyByte);
      n + LeadingBlanks(rest[n..]) < |rest| && rest[n + LeadingBlanks(rest[n..])] == '='
  {
  }

  lemma BlanksThenEquals(rest: string, i: nat)
    requires i <= |rest|
    ensures forall j :: i <= j < i + LeadingBlanks(rest[i..]) ==> SeparatorByte(rest[j])
  {
    forall j | i <= j < i + LeadingBlanks(rest[i..]) ensures SeparatorByte(rest[j]) {
      assert rest[j] == rest[i..][j - i];
    }
  }

  lemma TrimmedBlanks(rest: string, i: nat)
    requires i <= |rest|
    ensures forall j :: |TrimRight(rest[..i], Blank)| <= j < i ==> SeparatorByte(rest[j])
  {
    forall j | |TrimRight(rest[..i], Blank)| <= j < i ensures SeparatorByte(rest[j]) {
      assert rest[j] == rest[..i][j];
    }
  }

  /** A turn that starts at a token reads it whole, and past it at most separators. */
  ghost predicate ReadsWhole(inp: Input, st: State, turn: Turn) {
    match turn
    case Again(next) => Gap(inp.buf, st.off, next.off)
    case Emit(next, t) => t.start == st.off && t.start < t.end <= next.off && Gap(inp.buf, t.end, next.off)
    case _ => true
  }

  lemma DispatchReadsWhole(inp: Input, st: State)
    requires st.off < |inp.buf| && !Blank(inp.buf[st.off])
    ensures ReadsWhole(inp, st, Dispatch(inp, st))
  {
    hide ScanComment, KeyTurn, ScanValue;
    KeyTurnReadsWhole(inp, st);
  }

  lemma KeyTurnReadsWhole(inp: Input, st: State)
    requires st.off < |inp.buf| && !Blank(inp.buf[st.off])
    ensures ReadsWhole(inp, st, KeyTurn(inp, st))
  {
    hide ScanKey;
    var rest := inp.buf[st.off..];
    if ScanKey(rest, inp.limits.maxKeyLength).Ok? {
      var k := ScanKey(rest, inp.limits.maxKeyLength).value;
      KeyGap(rest, inp.limits.maxKeyLength);
      forall j | st.off + k.length <= j < st.off + k.next ensures SeparatorByte(inp.buf[j]) {
        assert inp.buf[j] == rest[j - st.off];
      }
    }
  }

  lemma TurnReadsWhole(inp: Input, st: State)
    requires st.off < |inp.buf| && !Blank(inp.buf[st.off])
    ensures ReadsWhole(inp, st, TurnAt(inp, st))
  {
    hide Dispatch, ScanComment, HeaderEnd, ValidateHeaderKey;
    DispatchReadsWhole(inp, st);
  }

  /** The tokens of a run, and how it ended. */
  datatype TokenRun = TokenRun(tokens: seq<Token>, outcome: Read)

  function Tokenize(inp: Input, st: State): TokenRun
    requires Inv(inp, st)
    decreases |inp.buf| - st.off
  {
    match ReadToken(inp, st)
    case Tok(next, token) =>
      var rest := Tokenize(inp, next);
      TokenRun([token] + rest.tokens, rest.outcome)
    case outcome => TokenRun([], outcome)
  }

  /** From `from` on the tokens stand in order, each of at least one byte, with only separators around them. */
  ghost predicate Tiles(buf: string, tokens: seq<Token>, from: nat)
    decreases |tokens|
  {
    if tokens == [] then Gap(buf, from, |buf|)
    else Gap(buf, from, tokens[0].start) && tokens[0].start < tokens[0].end && Tiles(buf, tokens[1..], tokens[0].end)
  }

  lemma TilesEarlier(buf: string, tokens: seq<Token>, from: nat, later: nat)
    requires Gap(buf, from, later) && Tiles(buf, tokens, later)
    ensures Tiles(buf, tokens, from)
  {
  }

  lemma {:induction false} ReadTokenReadsWhole(inp: Input, st: State)
    requires Inv(inp, st)
    ensures match ReadToken(inp, st)
            case Tok(next, t) => Gap(inp.buf, st.off, t.start) && t.start < t.end && Gap(inp.buf, t.end, next.off)
            case Ended(_) => Gap(inp.buf, st.off, |inp.buf|)
            case _ => true
    decreases |inp.buf| - st.off
  {
    hide TurnAt, SkipSpaces;
    if st.err.None? {
      TurnKeepsInv(inp, st);
      SkipSpacesStops(inp.buf, st);
      SkipSpacesGap(inp.buf, st);
      var s := SkipSpaces(inp.buf, st);
      if s.off < |inp.buf| {
        TurnReadsWhole(inp, s);
        NotEofInside(inp, s);
      }
      if LoopTurn(inp, st).Again? {
        ReadTokenReadsWhole(inp, LoopTurn(inp, st).st);
      }
    }
  }

  /** A run that reaches the end of the input has read every byte: as part of a token, or as a separator. */
  lemma {:induction false} TokenizationIsLossless(inp: Input, st: State)
    requires Inv(inp, st) && Tokenize(inp, st).outcome.Ended?
    ensures Tiles(inp.buf, Tokenize(inp, st).tokens, st.off)
    decreases |inp.buf| - st.off
  {
    ReadTokenReadsWhole(inp, st);
    var r := ReadToken(inp, st);
    if r.Tok? {
      TokenizationIsLossless(inp, r.st);
      var rest := Tokenize(inp, r.st).tokens;
      TilesEarlier(inp.buf, rest, r.token.end, r.st.off);
      assert Tokenize(inp, st).tokens[1..] == rest;
    }
  }

  /** What tiling means: disjoint spans in order, and nothing but separators outside them. */
  lemma {:induction false} TilesMeans(buf: string, tokens: seq<Token>, from: nat)
    requires Tiles(buf, tokens, from)
    ensures forall i :: 0 <= i < |tokens| ==> from <= tokens[i].start < tokens[i].end <= |buf|
    ensures forall i, j :: 0 <= i < j < |tokens| ==> tokens[i].end <= tokens[j].start
    ensures forall k :: from <= k < |buf| && !SeparatorByte(buf[k]) ==>
              exists i :: 0 <= i < |tokens| && tokens[i].start <= k < tokens[i].end
    decreases |tokens|
  {
    if tokens != [] {
      var rest := tokens[1..];
      TilesMeans(buf, rest, tokens[0].end);
      assert forall i :: 1 <= i < |tokens| ==> tokens[i] == rest[i - 1];
      if rest == [] {
        assert tokens[0].end <= |buf|;
      }
      forall k | from <= k < |buf| && !SeparatorByte(buf[k])
        ensures exists i :: 0 <= i < |tokens| && tokens[i].start <= k < tokens[i].end
      {
        if k >= tokens[0].end {
          var i :| 0 <= i < |rest| && rest[i].start <= k < rest[i].end;
          assert tokens[i + 1] == rest[i];
        }
      }
    }
  }
}
