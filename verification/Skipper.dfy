/**
 Skipping a value without making tokens. `scanSkippedStructuralValue` is a pushdown machine of its own over the bytes
 of an array or inline table; whatever it accepts, the token machine accepts too, and leaves the same state.
 */
module Skipper {
  import opened Results
  import opened Bytes
  import opened StringParser
  import opened StringWriter
  import opened Lexer
  import opened TokenMachine
  import opened TokenRuns

  // ----- The pushdown machine -----

  /** What an open container expects next. */
  datatype Frame = ArrayValue | ArraySeparator | InlineKey | InlineValue | InlineSeparator

  function KindOf(frame: Frame): Container {
    if frame.ArrayValue? || frame.ArraySeparator? then InArray else InInline
  }

  datatype Skip = Skip(i: nat, frames: seq<Frame>, arrayDepth: nat, inlineDepth: nat)

  /** `skipSkippedStructuralSpace`: white space, line endings and comments. */
  function StructuralSpace(buf: string, i: nat): (r: Result<nat, Fault>)
    requires i <= |buf|
    ensures r.Ok? ==> i <= r.value <= |buf|
    decreases |buf| - i
  {
    if i == |buf| then Ok(i)
    else if Blank(buf[i]) || buf[i] == '\n' then StructuralSpace(buf, i + 1)
    else if buf[i] == '\r' then
      if StartsCrLf(buf[i..]) then StructuralSpace(buf, i + 2) else Err(Syntax(ControlInValue, i))
    else if buf[i] == '#' then
      match ScanComment(buf[i..])
      case Err(f) => Err(At(f, i))
      case Ok(n) => StructuralSpace(buf, i + n)
    else Ok(i)
  }

  /** The equals sign of an inline key, from `i` on. */
  function InlineKeyEnd(rest: string, i: nat): (r: Result<nat, Fault>)
    requires i <= |rest|
    ensures r.Ok? ==> i <= r.value < |rest| && rest[r.value] == '='
    decreases |rest| - i
  {
    if i == |rest| then Err(Syntax(ExpectedEquals, i))
    else if rest[i] == '=' then Ok(i)
    else if IsQuote(rest[i]) then
      match ScanQuoted(rest[i..])
      case Err(f) => Err(At(f, i))
      case Ok(n) => InlineKeyEnd(rest, i + n)
    else if rest[i] == ',' || rest[i] == '}' || rest[i] == '\n' || rest[i] == '\r' || rest[i] == '#' then
      Err(Syntax(ExpectedEquals, i))
    else InlineKeyEnd(rest, i + 1)
  }

  /** `scanSkippedInlineKey`: where the value after the key may start. */
  function SkipInlineKey(rest: string, maxKeyLength: int): (r: Result<nat, Fault>)
    ensures r.Ok? ==> 1 <= r.value <= |rest|
  {
    var i :- InlineKeyEnd(rest, 0);
    var key := TrimRight(rest[..i], Blank);
    if key == "" then Err(Syntax(NoKey, 0))
    else if !KeyParses(key) then Err(BadKey(ParseDottedKey(key).error))
    else if |key| > maxKeyLength then Err(Limit(MaxKeyLength, 0, i))
    else Ok(i + 1)
  }

  function Suspended(frame: Frame): Frame {
    if KindOf(frame).InArray? then ArraySeparator else InlineSeparator
  }

  function Top(s: Skip): Frame
    requires s.frames != []
  {
    s.frames[|s.frames| - 1]
  }

  function SetTop(s: Skip, frame: Frame): Skip
    requires s.frames != []
  {
    s.(frames := s.frames[|s.frames| - 1 := frame])
  }

  function PushFrame(inp: Input, s: Skip, kind: Container): Result<Skip, Fault> {
    var depth := if kind.InArray? then s.arrayDepth + 1 else s.inlineDepth + 1;
    if inp.limits.maxNestedDepth > 0 && depth > inp.limits.maxNestedDepth then
      Err(Limit(MaxNestedDepth, s.i, s.i + 1))
    else if kind.InArray? then Ok(s.(i := s.i + 1, frames := s.frames + [ArrayValue], arrayDepth := depth))
    else Ok(s.(i := s.i + 1, frames := s.frames + [InlineKey], inlineDepth := depth))
  }

  function PopFrame(s: Skip): Skip
    requires s.frames != []
  {
    var popped := s.(i := s.i + 1, frames := s.frames[..|s.frames| - 1]);
    if KindOf(Top(s)).InArray? then popped.(arrayDepth := if s.arrayDepth > 0 then s.arrayDepth - 1 else 0)
    else popped.(inlineDepth := if s.inlineDepth > 0 then s.inlineDepth - 1 else 0)
  }

  /** `scanSkippedValue`, at the first byte of a value. */
  function SkipValue(inp: Input, s: Skip): (r: Result<Skip, Fault>)
    requires s.i < |inp.buf|
    ensures r.Ok? ==> s.i < r.value.i <= |inp.buf|
  {
    if inp.buf[s.i] == '[' then PushFrame(inp, s, InArray)
    else if inp.buf[s.i] == '{' then PushFrame(inp, s, InInline)
    else
      match ScanValue(inp.buf[s.i..], inp)
      case Err(f) => Err(At(f, s.i))
      case Ok(v) => Ok(s.(i := s.i + v.length))
  }

  /** What the machine does at the first byte that is not white space. */
  function SkipAct(inp: Input, s: Skip): (r: Result<Skip, Fault>)
    requires s.frames != [] && s.i < |inp.buf|
    ensures r.Ok? ==> s.i < r.value.i <= |inp.buf|
  {
    var c := inp.buf[s.i];
    match Top(s)
    case ArrayValue => if c == ']' then Ok(PopFrame(s)) else SkipValue(inp, SetTop(s, ArraySeparator))
    case ArraySeparator =>
      if c == ',' then Ok(SetTop(s, ArrayValue).(i := s.i + 1))
      else if c == ']' then Ok(PopFrame(s))
      else Err(Syntax(ExpectedArraySeparator, s.i))
    case InlineKey =>
      if c == '}' then Ok(PopFrame(s))
      else
        match SkipInlineKey(inp.buf[s.i..], inp.limits.maxKeyLength) {
          case Err(f) => Err(At(f, s.i))
          case Ok(n) => Ok(SetTop(s, InlineValue).(i := s.i + n))
        }
    case InlineValue => SkipValue(inp, SetTop(s, InlineSeparator))
    case InlineSeparator =>
      if c == ',' then Ok(SetTop(s, InlineKey).(i := s.i + 1))
      else if c == '}' then Ok(PopFrame(s))
      else Err(Syntax(ExpectedInlineSeparator, s.i))
  }

  /** Where the next byte to act on stands: a value must follow its key on the same line. */
  function SkipSpace(buf: string, s: Skip): (r: Result<nat, Fault>)
    requires s.frames != [] && s.i <= |buf|
    ensures r.Ok? ==> s.i <= r.value <= |buf|
  {
    if Top(s).InlineValue? then Ok(s.i + LeadingBlanks(buf[s.i..])) else StructuralSpace(buf, s.i)
  }

  function SkipStep(inp: Input, s: Skip): (r: Result<Skip, Fault>)
    requires s.frames != [] && s.i <= |inp.buf|
    ensures r.Ok? ==> s.i < r.value.i <= |inp.buf|
  {
    var i :- SkipSpace(inp.buf, s);
    if i >= |inp.buf| then Err(Syntax(UnterminatedValue, |inp.buf|)) else SkipAct(inp, s.(i := i))
  }

  /** The loop of `scanSkippedStructuralValue`: where the outermost container ends. */
  function SkipAll(inp: Input, s: Skip): (r: Result<nat, Fault>)
    requires s.i <= |inp.buf|
    decreases |inp.buf| - s.i
  {
    if s.frames == [] then Ok(s.i)
    else
      var next :- SkipStep(inp, s);
      SkipAll(inp, next)
  }

  /** `scanSkippedStructuralValue`, at the bracket or brace of a value, in a decoder with these depths. */
  function SkipStructural(inp: Input, start: nat, arrayDepth: nat, inlineDepth: nat): Result<nat, Fault>
    requires start < |inp.buf|
  {
    var s := Skip(start, [], arrayDepth, inlineDepth);
    if inp.buf[start] == '[' then
      var open :- PushFrame(inp, s, InArray);
      SkipAll(inp, open)
    else if inp.buf[start] == '{' then
      var open :- PushFrame(inp, s, InInline);
      SkipAll(inp, open)
    else Err(Syntax(ExpectedValue, start))
  }

  method ScanSkippedStructuralValue(inp: Input, start: nat, arrayDepth: nat, inlineDepth: nat)
    returns (r: Result<nat, Fault>)
    requires start < |inp.buf|
    ensures r == SkipStructural(inp, start, arrayDepth, inlineDepth)
  {
    hide SkipStep;
    if inp.buf[start] != '[' && inp.buf[start] != '{' {
      return Err(Syntax(ExpectedValue, start));
    }
    var kind := if inp.buf[start] == '[' then InArray else InInline;
    var s :- PushFrame(inp, Skip(start, [], arrayDepth, inlineDepth), kind);
    while |s.frames| > 0
      invariant s.i <= |inp.buf|
      invariant SkipStructural(inp, start, arrayDepth, inlineDepth) == SkipAll(inp, s)
      decreases |inp.buf| - s.i
    {
      s :- SkipStep(inp, s);
    }
    return Ok(s.i);
  }

  /** `skipStructuralValueFast`: the state after the value, when it is an array or inline table that can be skipped. */
  function SkipFast(inp: Input, st: State): Option<Result<State, Fault>>
    requires Inv(inp, st)
  {
    var s := SkipSpaces(inp.buf, st);
    if s.off >= |inp.buf| || s.err.Some? || (inp.buf[s.off] != '[' && inp.buf[s.off] != '{') then None
    else
      match SkipStructural(inp, s.off, s.arrayDepth, s.inlineDepth)
      case Err(f) => Some(Err(f))
      case Ok(end) => Some(Ok(AfterValue(s, end)))
  }

  // ----- Skipping by tokens -----

  datatype Skipped = Done(st: State) | GaveUp

  /** Reads tokens until `depth` open containers are closed. */
  function SkipDepth(inp: Input, st: State, depth: nat): Skipped
    requires Inv(inp, st)
    decreases |inp.buf| - st.off
  {
    if depth == 0 then Done(st)
    else
      match ReadToken(inp, st)
      case Tok(next, t) =>
        if t.kind.ArrayStart? || t.kind.InlineTableStart? then SkipDepth(inp, next, depth + 1)
        else if t.kind.ArrayEnd? || t.kind.InlineTableEnd? then SkipDepth(inp, next, depth - 1)
        else SkipDepth(inp, next, depth)
      case _ => GaveUp
  }

  /** `skipNextValue` without its shortcut: `skipRawValueToken` on the next token that is not a comment. */
  function SkipByTokens(inp: Input, st: State): Skipped
    requires Inv(inp, st)
    decreases |inp.buf| - st.off
  {
    match ReadToken(inp, st)
    case Tok(next, t) =>
      if t.kind.Comment? then SkipByTokens(inp, next)
      else if t.kind.ArrayStart? || t.kind.InlineTableStart? then SkipDepth(inp, next, 1)
      else if t.kind.StringValueToken? || t.kind.IntegerToken? || t.kind.FloatToken? || t.kind.BoolToken?
              || t.kind.DatetimeToken? then Done(next)
      else GaveUp
    case _ => GaveUp
  }

  // ----- The two ways to scan an inline key agree -----

  lemma {:induction false} InlineKeyEndIsKeyEnd(rest: string, i: nat)
    requires i <= |rest| && InlineKeyEnd(rest, i).Ok?
    ensures KeyEnd(rest, i) == InlineKeyEnd(rest, i)
    decreases |rest| - i
  {
    hide ScanQuoted;
    if rest[i] != '=' {
      InlineKeyEndIsKeyEnd(rest, if IsQuote(rest[i]) then i + ScanQuoted(rest[i..]).value else i + 1);
    }
  }

  /** A run of bare-key bytes and blanks holds no key end. */
  lemma {:induction false} InlineKeyEndPasses(rest: string, i: nat, j: nat)
    requires i <= j <= |rest| && forall k :: i <= k < j ==> BareKeyByte(rest[k]) || Blank(rest[k])
    ensures InlineKeyEnd(rest, i) == InlineKeyEnd(rest, j)
    decreases j - i
  {
    hide ScanQuoted;
    if i < j {
      InlineKeyEndPasses(rest, i + 1, j);
    }
  }

  lemma {:induction false} TrimRightOfBlanks(s: string, n: nat)
    requires n <= |s| && (forall k :: n <= k < |s| ==> Blank(s[k])) && (n > 0 ==> !Blank(s[n - 1]))
    ensures TrimRight(s, Blank) == s[..n]
  {
    if n < |s| {
      var front := s[..|s| - 1];
      TrimRightOfBlanks(front, n);
      assert front[..n] == s[..n];
    } else {
      assert s[..n] == s;
    }
  }

  /** An inline key the skipper accepts is a key token to the tokenizer, with the same equals sign. */
  lemma KeyScansAgree(rest: string, maxKeyLength: int)
    requires rest != "" && !Blank(rest[0]) && SkipInlineKey(rest, maxKeyLength).Ok?
    ensures ScanKey(rest, maxKeyLength).Ok?
    ensures ScanKey(rest, maxKeyLength).value.next == SkipInlineKey(rest, maxKeyLength).value
  {
    hide KeyEnd, TrimRight, KeyParses, BareKeyAssigned;
    InlineKeyEndIsKeyEnd(rest, 0);
    if BareKeyAssigned(rest) {
      BareInlineKey(rest);
    } else {
      assert rest[InlineKeyEnd(rest, 0).value..][0] == '=';
    }
  }

  lemma BareInlineKey(rest: string)
    requires BareKeyAssigned(rest)
    ensures var n := FirstStop(rest, NotBareKeyByte);
      var eq := n + LeadingBlanks(rest[n..]);
      InlineKeyEnd(rest, 0) == Ok(eq) && TrimRight(rest[..eq], Blank) == rest[..n]
  {
    hide ScanQuoted, TrimRight, LeadingBlanks, FirstStop;
    var n := FirstStop(rest, NotBareKeyByte);
    var eq := n + LeadingBlanks(rest[n..]);
    BlanksFrom(rest, n);
    InlineKeyEndPasses(rest, 0, eq);
    assert rest[..eq][..n] == rest[..n];
    TrimRightOfBlanks(rest[..eq], n);
  }

  lemma BlanksFrom(rest: string, n: nat)
    requires n <= |rest|
    ensures forall k :: n <= k < n + LeadingBlanks(rest[n..]) ==> Blank(rest[k])
  {
    forall k | n <= k < n + LeadingBlanks(rest[n..]) ensures Blank(rest[k]) {
      assert rest[k] == rest[n..][k - n];
    }
  }

  // ----- Simulation: turns and tokens -----

  lemma SameSpaceSameRead(inp: Input, st: State, st': State)
    requires Inv(inp, st) && Inv(inp, st') && st.err.None? && st'.err.None? && st.off < |inp.buf|
    requires SkipSpaces(inp.buf, st) == SkipSpaces(inp.buf, st')
    ensures ReadToken(inp, st) == ReadToken(inp, st')
  {
    hide TurnAt;
  }

  /** The flags that go with what the innermost open container expects. */
  predicate FlagsOf(st: State, top: Frame) {
    && !st.needLineEnd && st.err.None?
    && st.expectingValue == (top.ArrayValue? || top.ArraySeparator? || top.InlineValue?)
    && st.valueNoNewline == top.InlineValue?
    && st.needSeparator == (top.ArraySeparator? || top.InlineSeparator?)
  }

  /** A token inside a value whose flags are those of `top`, with nothing but white space before it. */
  lemma {:induction false} StructuralSpaceSimulated(inp: Input, st: State, top: Frame, depth: nat, stop: nat)
    returns (st': State)
    requires Inv(inp, st) && FlagsOf(st, top) && !top.InlineValue? && depth > 0
    requires StructuralSpace(inp.buf, st.off) == Ok(stop) && stop < |inp.buf|
    ensures Inv(inp, st') && SkipDepth(inp, st', depth) == SkipDepth(inp, st, depth)
    ensures st' == st.(off := stop, atLineStart := st'.atLineStart)
    ensures !SpaceByte(inp.buf[stop]) && inp.buf[stop] != '#'
    decreases |inp.buf| - st.off
  {
    hide TurnAt, SkipSpaces, ScanComment;
    var c := inp.buf[st.off];
    st' := st;
    if Blank(c) || c == '\n' || c == '\r' {
      var next := OneSpace(inp, st);
      SameSpaceSameRead(inp, st, next);
      st' := StructuralSpaceSimulated(inp, next, top, depth, stop);
    } else if c == '#' {
      var n := ScanComment(inp.buf[st.off..]).value;
      var next := st.(off := st.off + n, atLineStart := false);
      CommentRead(inp, st);
      st' := StructuralSpaceSimulated(inp, next, top, depth, stop);
    }
  }

  /** The state one blank or line ending further on. */
  lemma OneSpace(inp: Input, st: State) returns (next: State)
    requires Inv(inp, st) && st.off < |inp.buf| && !st.valueNoNewline && !st.needLineEnd
    requires Blank(inp.buf[st.off]) || inp.buf[st.off] == '\n' || StartsCrLf(inp.buf[st.off..])
    ensures Inv(inp, next) && SkipSpaces(inp.buf, next) == SkipSpaces(inp.buf, st)
    ensures next == st.(off := next.off, atLineStart := next.atLineStart)
    ensures next.off == st.off + if inp.buf[st.off] == '\r' then 2 else 1
  {
    if Blank(inp.buf[st.off]) {
      next := st.(off := st.off + 1);
    } else if inp.buf[st.off] == '\n' {
      next := st.(off := st.off + 1, atLineStart := true, needLineEnd := false);
    } else {
      next := st.(off := st.off + 2, atLineStart := true, needLineEnd := false);
    }
  }

  /** At a byte that is not white space a turn is the dispatch, unless a header could start there. */
  lemma ReadsAtToken(inp: Input, st: State)
    requires Inv(inp, st) && st.err.None? && st.off < |inp.buf| && !SpaceByte(inp.buf[st.off]) && !st.needLineEnd
    requires inp.buf[st.off] != '[' || st.expectingValue
    ensures LoopTurn(inp, st) == Dispatch(inp, st)
  {
    hide Dispatch;
    var rest := inp.buf[st.off..];
    assert "[[" <= rest ==> rest[0] == "[["[0];
  }

  lemma CommentRead(inp: Input, st: State)
    requires Inv(inp, st) && st.err.None? && st.off < |inp.buf| && inp.buf[st.off] == '#' && !st.needLineEnd
    requires ScanComment(inp.buf[st.off..]).Ok?
    ensures var n := ScanComment(inp.buf[st.off..]).value;
      ReadToken(inp, st) == Tok(st.(off := st.off + n, atLineStart := false), Token(Comment, st.off, st.off + n, false))
  {
    hide ScanComment;
    ReadsAtToken(inp, st);
  }

  // ----- Simulation: the two machines in step -----

  function Kinds(frames: seq<Frame>): seq<Container> {
    if frames == [] then [] else Kinds(frames[..|frames| - 1]) + [KindOf(frames[|frames| - 1])]
  }

  function CountKind(frames: seq<Frame>, kind: Container): nat {
    if frames == [] then 0
    else CountKind(frames[..|frames| - 1], kind) + (if KindOf(frames[|frames| - 1]) == kind then 1 else 0)
  }

  /** Every frame but the innermost waits for the separator after the value being skipped. */
  predicate OthersSuspended(frames: seq<Frame>) {
    forall i :: 0 <= i < |frames| - 1 ==> frames[i] == Suspended(frames[i])
  }

  /** The token machine, which started the value in state `base`, has come to where the skipper is. */
  ghost predicate InStep(inp: Input, base: State, s: Skip, st: State) {
    && s.frames != [] && OthersSuspended(s.frames)
    && Inv(inp, st) && st.off == s.i && FlagsOf(st, Top(s))
    && st.stack == base.stack + Kinds(s.frames)
    && st.arrayDepth == s.arrayDepth == base.arrayDepth + CountKind(s.frames, InArray)
    && st.inlineDepth == s.inlineDepth == base.inlineDepth + CountKind(s.frames, InInline)
  }

  /** What a step of the skipper is to the token machine: still in step, or the value is complete. */
  ghost predicate StepMatched(inp: Input, base: State, s: Skip, st: State, s': Skip, st': State) {
    if s'.frames == [] then
      Inv(inp, st) && SkipDepth(inp, st, |s.frames|) == Done(AfterValue(base, s'.i))
    else
      InStep(inp, base, s', st') && Inv(inp, st) && SkipDepth(inp, st, |s.frames|) == SkipDepth(inp, st', |s'.frames|)
  }

  /** The innermost kind is the one on the stack. */
  lemma InnermostKind(base: seq<Container>, frames: seq<Frame>)
    requires frames != []
    ensures InnermostIsArray(base + Kinds(frames)) <==> KindOf(frames[|frames| - 1]).InArray?
    ensures base + Kinds(frames) != []
    ensures Pop(base + Kinds(frames), KindOf(frames[|frames| - 1])) == base + Kinds(frames[..|frames| - 1])
  {
    var outer, kind := Kinds(frames[..|frames| - 1]), KindOf(frames[|frames| - 1]);
    assert Kinds(frames) == outer + [kind];
    hide Kinds, KindOf;
    var stack := base + Kinds(frames);
    assert stack == (base + outer) + [kind];
    assert stack[..|stack| - 1] == base + outer;
  }

  /** Changing what the innermost container expects changes neither the stack nor the depths. */
  lemma SetTopKeeps(frames: seq<Frame>, frame: Frame)
    requires frames != [] && KindOf(frame) == KindOf(frames[|frames| - 1])
    ensures var f := frames[|frames| - 1 := frame];
      && Kinds(f) == Kinds(frames) && (OthersSuspended(frames) ==> OthersSuspended(f))
      && CountKind(f, InArray) == CountKind(frames, InArray) && CountKind(f, InInline) == CountKind(frames, InInline)
  {
    var f := frames[|frames| - 1 := frame];
    assert f[..|f| - 1] == frames[..|frames| - 1];
  }

  /** After a value the flags are those of a suspended container. */
  lemma AfterValueFlags(base: seq<Container>, frames: seq<Frame>, st: State, end: nat)
    requires frames != [] && st.stack == base + Kinds(frames) && st.err.None?
    ensures FlagsOf(AfterValue(st, end), Suspended(frames[|frames| - 1]))
  {
    InnermostKind(base, frames);
  }

  /** The depth after a token. */
  function DepthAfter(depth: nat, kind: TokenKind): nat {
    if kind.ArrayStart? || kind.InlineTableStart? then depth + 1
    else if (kind.ArrayEnd? || kind.InlineTableEnd?) && depth > 0 then depth - 1
    else depth
  }

  lemma DispatchTokenRead(inp: Input, st: State, next: State, t: Token, depth: nat)
    requires Inv(inp, st) && st.err.None? && st.off < |inp.buf| && !SpaceByte(inp.buf[st.off]) && !st.needLineEnd
    requires inp.buf[st.off] != '[' || st.expectingValue
    requires Dispatch(inp, st) == Emit(next, t) && depth > 0
    ensures Inv(inp, next) && SkipDepth(inp, st, depth) == SkipDepth(inp, next, DepthAfter(depth, t.kind))
  {
    hide Dispatch, Inv;
    ReadsAtToken(inp, st);
    TurnKeepsInv(inp, st);
  }

  /** The closer of the frame on top. */
  function CloserTurn(s: Skip, st: State): Turn
    requires s.frames != []
  {
    if KindOf(Top(s)).InArray? then ArrayEndTurn(st) else InlineEndTurn(st)
  }

  lemma LastCloser(inp: Input, base: State, s: Skip, st: State)
    requires InStep(inp, base, s, st) && base.err.None? && |s.frames| == 1
    ensures CloserTurn(s, st).st == AfterValue(base, s.i + 1)
  {
    hide Inv;
    InnermostKind(base.stack, s.frames);
    var outer := s.frames[..|s.frames| - 1];
    assert outer == [] && base.stack + Kinds(outer) == base.stack;
    assert CountKind(s.frames, InArray) == CountKind(outer, InArray) + if KindOf(Top(s)).InArray? then 1 else 0;
    assert CountKind(s.frames, InInline) == CountKind(outer, InInline) + if KindOf(Top(s)).InInline? then 1 else 0;
  }

  lemma InnerCloser(inp: Input, base: State, s: Skip, st: State)
    requires InStep(inp, base, s, st) && |s.frames| > 1 && Inv(inp, CloserTurn(s, st).st)
    ensures InStep(inp, base, PopFrame(s), CloserTurn(s, st).st)
  {
    hide Inv;
    var outer := s.frames[..|s.frames| - 1];
    InnermostKind(base.stack, s.frames);
    InnermostKind(base.stack, outer);
    assert Top(PopFrame(s)) == s.frames[|s.frames| - 2];
    assert CountKind(s.frames, InArray) == CountKind(outer, InArray) + if KindOf(Top(s)).InArray? then 1 else 0;
    assert CountKind(s.frames, InInline) == CountKind(outer, InInline) + if KindOf(Top(s)).InInline? then 1 else 0;
  }

  lemma CloserSimulated(inp: Input, base: State, s: Skip, st: State) returns (st': State)
    requires InStep(inp, base, s, st) && base.err.None? && s.i < |inp.buf|
    requires inp.buf[s.i] == if KindOf(Top(s)).InArray? then ']' else '}'
    ensures StepMatched(inp, base, s, st, PopFrame(s), st')
  {
    hide SkipDepth, Inv, Dispatch, AfterValue;
    CloserDispatch(inp, st);
    var turn := CloserTurn(s, st);
    st' := turn.st;
    DispatchTokenRead(inp, st, st', turn.token, |s.frames|);
    if |s.frames| == 1 {
      LastCloser(inp, base, s, st);
      SkipNothing(inp, st');
    } else {
      InnerCloser(inp, base, s, st);
    }
  }

  lemma CloserDispatch(inp: Input, st: State)
    requires st.off < |inp.buf|
    ensures inp.buf[st.off] == ']' ==> Dispatch(inp, st) == ArrayEndTurn(st)
    ensures inp.buf[st.off] == '}' ==> Dispatch(inp, st) == InlineEndTurn(st)
  {
  }

  lemma SkipNothing(inp: Input, st: State)
    requires Inv(inp, st)
    ensures SkipDepth(inp, st, 0) == Done(st)
  {
  }

  lemma OpenerDispatch(inp: Input, st: State)
    requires st.off < |inp.buf| && st.expectingValue
    ensures inp.buf[st.off] == '[' ==> Dispatch(inp, st) == ArrayStartTurn(inp, st)
    ensures inp.buf[st.off] == '{' ==> Dispatch(inp, st) == InlineStartTurn(st)
  {
  }

  lemma OpenerSimulated(inp: Input, base: State, s: Skip, st: State, kind: Container, s': Skip) returns (st': State)
    requires InStep(inp, base, s, st) && s.i < |inp.buf| && Top(s) != Suspended(Top(s)) && !Top(s).InlineKey?
    requires inp.buf[s.i] == if kind.InArray? then '[' else '{'
    requires PushFrame(inp, SetTop(s, Suspended(Top(s))), kind) == Ok(s')
    ensures StepMatched(inp, base, s, st, s', st')
  {
    hide SkipDepth, Dispatch;
    var turn := OpeningTurn(inp, st, kind);
    OpenerDispatch(inp, st);
    DispatchTokenRead(inp, st, turn.st, turn.token, |s.frames|);
    OpenedInStep(inp, base, s, st, kind, s');
    st' := turn.st;
  }

  lemma OpenedInStep(inp: Input, base: State, s: Skip, st: State, kind: Container, s': Skip)
    requires InStep(inp, base, s, st) && Top(s) != Suspended(Top(s))
    requires PushFrame(inp, SetTop(s, Suspended(Top(s))), kind) == Ok(s') && Inv(inp, OpeningTurn(inp, st, kind).st)
    ensures InStep(inp, base, s', OpeningTurn(inp, st, kind).st) && |s'.frames| == |s.frames| + 1
  {
    hide Inv;
    var waiting := SetTop(s, Suspended(Top(s))).frames;
    SetTopKeeps(s.frames, Suspended(Top(s)));
    assert s'.frames[..|s'.frames| - 1] == waiting;
    assert OpeningTurn(inp, st, kind).st.stack == base.stack + Kinds(s'.frames);
  }

  lemma PlainValueSimulated(inp: Input, base: State, s: Skip, st: State) returns (st': State)
    requires InStep(inp, base, s, st) && s.i < |inp.buf| && Top(s) != Suspended(Top(s)) && !Top(s).InlineKey?
    requires inp.buf[s.i] != '[' && inp.buf[s.i] != '{' && ScanValue(inp.buf[s.i..], inp).Ok?
    ensures var v := ScanValue(inp.buf[s.i..], inp).value;
      StepMatched(inp, base, s, st, SetTop(s, Suspended(Top(s))).(i := s.i + v.length), st')
  {
    hide SkipDepth, ScanValue;
    var v := ScanValue(inp.buf[s.i..], inp).value;
    ValueStart(inp.buf[s.i..], inp);
    st' := AfterValue(st, s.i + v.length);
    DispatchTokenRead(inp, st, st', Token(v.kind, s.i, s.i + v.length, v.ready), |s.frames|);
    SetTopKeeps(s.frames, Suspended(Top(s)));
    AfterValueFlags(base.stack, s.frames, st, s.i + v.length);
  }

  /** A value the scan accepts starts with none of the bytes the dispatch treats apart. */
  lemma ValueStart(rest: string, inp: Input)
    requires rest != "" && ScanValue(rest, inp).Ok? && rest[0] != '[' && rest[0] != '{'
    ensures rest[0] !in "[]{},=#" && !SpaceByte(rest[0])
    ensures var k := ScanValue(rest, inp).value.kind;
      k.StringValueToken? || k.IntegerToken? || k.FloatToken? || k.BoolToken? || k.DatetimeToken?
  {
    hide ScanString, Classify;
    if !IsQuote(rest[0]) {
      assert ScanBareValueEnd(rest) > 0;
      ClassifyKinds(rest[..ScanBareValueEnd(rest)], inp.readsFloat);
    }
  }

  lemma ClassifyKinds(raw: string, readsFloat: FloatReader)
    requires Classify(raw, readsFloat).Ok?
    ensures var k := Classify(raw, readsFloat).value; k.IntegerToken? || k.FloatToken? || k.BoolToken? || k.DatetimeToken?
  {
    hide LooksLikeDatetime, FloatCandidate;
  }

  lemma KeySimulated(inp: Input, base: State, s: Skip, st: State) returns (st': State)
    requires InStep(inp, base, s, st) && s.i < |inp.buf| && Top(s).InlineKey?
    requires !SpaceByte(inp.buf[s.i]) && inp.buf[s.i] != '#' && inp.buf[s.i] != '}'
    requires SkipInlineKey(inp.buf[s.i..], inp.limits.maxKeyLength).Ok?
    ensures var n := SkipInlineKey(inp.buf[s.i..], inp.limits.maxKeyLength).value;
      StepMatched(inp, base, s, st, SetTop(s, InlineValue).(i := s.i + n), st')
  {
    hide SkipInlineKey, ScanKey, SkipDepth, Inv, Dispatch;
    var rest := inp.buf[s.i..];
    KeyScansAgree(rest, inp.limits.maxKeyLength);
    InlineKeyStart(rest, inp.limits.maxKeyLength);
    KeyDispatch(inp, st);
    var turn := KeyTurn(inp, st);
    DispatchTokenRead(inp, st, turn.st, turn.token, |s.frames|);
    SetTopKeeps(s.frames, InlineValue);
    st' := turn.st;
  }

  lemma KeyDispatch(inp: Input, st: State)
    requires st.off < |inp.buf| && inp.buf[st.off] !in "[]{},=#" && !Blank(inp.buf[st.off])
    requires !st.expectingValue && !st.needSeparator
    ensures Dispatch(inp, st) == KeyTurn(inp, st)
  {
    hide ScanKey;
  }

  /** A key the skipper accepts starts with none of the bytes the dispatch treats apart. */
  lemma InlineKeyStart(rest: string, maxKeyLength: int)
    requires rest != "" && !SpaceByte(rest[0]) && SkipInlineKey(rest, maxKeyLength).Ok?
    ensures rest[0] !in "[]{},=#"
  {
    hide KeyParses, ScanQuoted;
    var i := InlineKeyEnd(rest, 0).value;
    var key := TrimRight(rest[..i], Blank);
    assert i > 0 && key[0] == rest[..i][0];
    KeyStart(key);
  }

  lemma CommaSimulated(inp: Input, base: State, s: Skip, st: State) returns (st': State)
    requires InStep(inp, base, s, st) && s.i < |inp.buf| && inp.buf[s.i] == ','
    requires Top(s).ArraySeparator? || Top(s).InlineSeparator?
    ensures StepMatched(inp, base, s, st,
                        SetTop(s, if Top(s).ArraySeparator? then ArrayValue else InlineKey).(i := s.i + 1), st')
  {
    hide Inv, ReadToken;
    InStepMeans(inp, base, s, st);
    CommaRead(inp, st);
    InnermostKind(base.stack, s.frames);
    SetTopKeeps(s.frames, if Top(s).ArraySeparator? then ArrayValue else InlineKey);
    st' := AfterComma(st);
    SameReadSameSkip(inp, st, st', |s.frames|);
  }

  lemma InStepMeans(inp: Input, base: State, s: Skip, st: State)
    requires InStep(inp, base, s, st)
    ensures Inv(inp, st) && !st.needLineEnd && st.err.None?
  {
  }

  /** The state behind a comma. */
  function AfterComma(st: State): State {
    st.(off := st.off + 1, atLineStart := false, needSeparator := false, expectingValue := InnermostIsArray(st.stack))
  }

  lemma CommaDispatch(inp: Input, st: State)
    requires st.off < |inp.buf| && inp.buf[st.off] == ',' && st.needSeparator
    ensures Dispatch(inp, st) == Again(AfterComma(st))
  {
  }

  /** A comma that is due is passed over. */
  lemma CommaRead(inp: Input, st: State)
    requires Inv(inp, st) && st.err.None? && st.off < |inp.buf| && inp.buf[st.off] == ',' && !st.needLineEnd
    requires st.needSeparator
    ensures Inv(inp, AfterComma(st)) && ReadToken(inp, st) == ReadToken(inp, AfterComma(st))
  {
    hide Dispatch;
    ReadsAtToken(inp, st);
    CommaDispatch(inp, st);
    TurnKeepsInv(inp, st);
  }

  lemma ActSimulated(inp: Input, base: State, s: Skip, st: State, s': Skip) returns (st': State)
    requires InStep(inp, base, s, st) && base.err.None? && s.i < |inp.buf| && SkipAct(inp, s) == Ok(s')
    requires !Blank(inp.buf[s.i])
    requires Top(s).InlineValue? || (!SpaceByte(inp.buf[s.i]) && inp.buf[s.i] != '#')
    ensures StepMatched(inp, base, s, st, s', st')
  {
    hide SkipInlineKey, ScanValue, StepMatched, PushFrame, PopFrame, Inv;
    var c := inp.buf[s.i];
    if (Top(s).ArrayValue? && c != ']') || Top(s).InlineValue? {
      if c == '[' {
        st' := OpenerSimulated(inp, base, s, st, InArray, s');
      } else if c == '{' {
        st' := OpenerSimulated(inp, base, s, st, InInline, s');
      } else {
        ValueStart(inp.buf[s.i..], inp);
        st' := PlainValueSimulated(inp, base, s, st);
      }
    } else if Top(s).InlineKey? && c != '}' {
      st' := KeySimulated(inp, base, s, st);
    } else if c == ',' {
      st' := CommaSimulated(inp, base, s, st);
    } else {
      st' := CloserSimulated(inp, base, s, st);
    }
  }

  lemma {:induction false} BlanksSkipped(buf: string, st: State, n: nat)
    requires st.off + n <= |buf| && forall k :: 0 <= k < n ==> Blank(buf[st.off..][k])
    ensures SkipSpaces(buf, st.(off := st.off + n)) == SkipSpaces(buf, st)
    decreases n
  {
    if n > 0 {
      var next := st.(off := st.off + 1);
      assert forall k :: 0 <= k < n - 1 ==> buf[next.off..][k] == buf[st.off..][k + 1];
      assert Blank(buf[st.off..][0]);
      BlanksSkipped(buf, next, n - 1);
    }
  }

  lemma StepSimulated(inp: Input, base: State, s: Skip, st: State, s': Skip) returns (st': State)
    requires InStep(inp, base, s, st) && base.err.None? && s.i <= |inp.buf| && SkipStep(inp, s) == Ok(s')
    ensures StepMatched(inp, base, s, st, s', st')
  {
    hide SkipAct, SkipDepth, CountArrays;
    var i := SkipSpace(inp.buf, s).value;
    var at, mid := s.(i := i), st;
    if Top(s).InlineValue? {
      var n := LeadingBlanks(inp.buf[s.i..]);
      mid := st.(off := i);
      BlanksSkipped(inp.buf, st, n);
      assert i < |inp.buf| ==> inp.buf[i] == inp.buf[s.i..][n];
      SameSpaceSameRead(inp, st, mid);
      SameReadSameSkip(inp, st, mid, |s.frames|);
    } else {
      mid := StructuralSpaceSimulated(inp, st, Top(s), |s.frames|, i);
    }
    assert InStep(inp, base, at, mid);
    st' := ActSimulated(inp, base, at, mid, s');
  }

  lemma SameReadSameSkip(inp: Input, st: State, st': State, depth: nat)
    requires Inv(inp, st) && Inv(inp, st') && ReadToken(inp, st) == ReadToken(inp, st') && depth > 0
    ensures SkipDepth(inp, st, depth) == SkipDepth(inp, st', depth)
  {
    hide ReadToken;
  }

  /** Where the skipper finds the end of the value, the token loop ends with the state the skipper leaves. */
  lemma {:induction false} SkipAllSimulated(inp: Input, base: State, s: Skip, st: State)
    requires InStep(inp, base, s, st) && base.err.None? && s.i <= |inp.buf| && SkipAll(inp, s).Ok?
    ensures Inv(inp, st) && SkipDepth(inp, st, |s.frames|) == Done(AfterValue(base, SkipAll(inp, s).value))
    decreases |inp.buf| - s.i
  {
    hide SkipStep, SkipDepth, InStep, AfterValue;
    assert Inv(inp, st) && s.frames != [] by {
      InStepValid(inp, base, s, st);
    }
    var s' := SkipStep(inp, s).value;
    var st' := StepSimulated(inp, base, s, st, s');
    if s'.frames != [] {
      SkipAllSimulated(inp, base, s', st');
    }
  }

  lemma InStepValid(inp: Input, base: State, s: Skip, st: State)
    requires InStep(inp, base, s, st)
    ensures Inv(inp, st) && s.frames != []
  {
  }

  function OpeningTurn(inp: Input, st: State, kind: Container): Turn {
    if kind.InArray? then ArrayStartTurn(inp, st) else InlineStartTurn(st)
  }

  lemma OpensInStep(inp: Input, st: State, kind: Container, open: Skip)
    requires Inv(inp, OpeningTurn(inp, st, kind).st) && st.err.None? && !st.needLineEnd
    requires PushFrame(inp, Skip(st.off, [], st.arrayDepth, st.inlineDepth), kind) == Ok(open)
    ensures InStep(inp, st, open, OpeningTurn(inp, st, kind).st) && |open.frames| == 1 && open.i == st.off + 1
  {
    hide Inv;
    assert open.frames[..0] == [] && Kinds(open.frames) == [kind];
    assert CountKind(open.frames, InArray) == if kind.InArray? then 1 else 0;
    assert CountKind(open.frames, InInline) == if kind.InInline? then 1 else 0;
  }

  lemma OpeningRead(inp: Input, st: State, kind: Container)
    requires Inv(inp, st) && st.err.None? && st.expectingValue && !st.needLineEnd && st.off < |inp.buf|
    requires inp.buf[st.off] == if kind.InArray? then '[' else '{'
    ensures Inv(inp, OpeningTurn(inp, st, kind).st)
    ensures SkipByTokens(inp, st) == SkipDepth(inp, OpeningTurn(inp, st, kind).st, 1)
  {
    hide SkipDepth, Dispatch, Inv;
    OpenerDispatch(inp, st);
    ReadsAtToken(inp, st);
    TurnKeepsInv(inp, st);
  }

  /**
   Whenever the shortcut skips an array or inline table, reading the value token by token accepts it too, and leaves
   the decoder in exactly the same state.
   */
  lemma FastSkipRefinesTokens(inp: Input, st: State)
    requires Inv(inp, st) && st.err.None? && st.expectingValue && !st.needSeparator && !st.needLineEnd
    requires SkipFast(inp, st).Some? && SkipFast(inp, st).value.Ok?
    ensures SkipByTokens(inp, st) == Done(SkipFast(inp, st).value.value)
  {
    hide SkipAll, SkipDepth, SkipSpaces, OpeningTurn, InStep, AfterValue, PushFrame, ReadToken;
    SkipSpacesStops(inp.buf, st);
    SkipSpacesIdempotent(inp.buf, st);
    var s := SkipSpaces(inp.buf, st);
    SameSpaceSameRead(inp, st, s);
    var kind := if inp.buf[s.off] == '[' then InArray else InInline;
    var open := PushFrame(inp, Skip(s.off, [], s.arrayDepth, s.inlineDepth), kind).value;
    OpeningRead(inp, s, kind);
    OpensInStep(inp, s, kind, open);
    SkipAllSimulated(inp, s, open, OpeningTurn(inp, s, kind).st);
  }
}
