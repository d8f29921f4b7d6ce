/** Values the printer wrote, read by the tokenizer and the parser: each comes back as it was. */
module PrintedValues {
  import opened Results
  import opened Bytes
  import opened Decimal
  import opened Paths
  import opened StringParser
  import opened StringWriter
  import opened Integers
  import opened DateTimes
  import opened Lexer
  import opened TokenMachine
  import opened StringTokens
  import opened PrintedKeys
  import opened DocumentReader
  import opened Printer
  import opened PrintedTables
  import M = TableMachine
  import Skipper

  // ----- Scalars -----

  /** What may follow a printed value: a comma, a bracket, the end of the line, or the end of an inline table. */
  predicate Follows(rest: string) {
    rest != "" && (rest[0] == ',' || rest[0] == ']' || rest[0] == '\n' || " }" <= rest)
  }

  /** A bare value's text: no delimiter in it, and nothing a date or a time starts with. */
  predicate PlainBare(t: string) {
    t != "" && (forall i :: 0 <= i < |t| ==> !BareValueDelimiter(t[i]))
    && (|t| > 2 ==> t[2] != ':') && (|t| > 4 ==> t[4] != '-') && !IsQuote(t[0])
  }

  lemma NotADate(t: string, more: string)
    requires PlainBare(t) && (more == "" || (|t| == 10 && |more| == 1))
    ensures ParseDateTime(t + more).None?
  {
  }

  lemma BareStops(t: string, rest: string)
    requires PlainBare(t) && Follows(rest)
    ensures FirstStop(t + rest, BareValueDelimiter) == |t|
  {
    var all := t + rest;
    forall i | 0 <= i < |t| ensures !BareValueDelimiter(all[i]) {
      assert all[i] == t[i];
    }
    FirstStopUnique(all, BareValueDelimiter, |t|);
  }

  lemma BareValueEnds(t: string, rest: string)
    requires PlainBare(t) && Follows(rest)
    ensures ScanBareValueEnd(t + rest) == |t|
  {
    hide ParseDateTime;
    var all := t + rest;
    BareStops(t, rest);
    if |t| == 10 && rest[0] == ' ' {
      assert all[|t| + 1..][0] == '}';
      assert all[..|t| + 1] == t + " ";
      NotADate(t, " ");
    }
  }

  lemma BareScanned(inp: Input, t: string, rest: string, kind: TokenKind)
    requires PlainBare(t) && Follows(rest) && Classify(t, inp.readsFloat) == Ok(kind)
    ensures ScanValue(t + rest, inp) == Ok(ValueToken(kind, |t|, false))
  {
    hide Classify, ScanString;
    BareValueEnds(t, rest);
    assert (t + rest)[..|t|] == t;
  }

  lemma IntegerIsBare(n: int)
    ensures PlainBare(OfInt(n)) && (IsDigit(OfInt(n)[0]) || OfInt(n)[0] == '-')
  {
    var digits := OfNat(if n < 0 then -n else n);
    assert forall i :: 0 <= i < |digits| ==> IsDigit(digits[i]);
    assert n < 0 ==> OfInt(n)[1..] == digits;
    assert forall i :: 1 <= i < |OfInt(n)| ==> IsDigit(OfInt(n)[i]);
  }

  lemma IntegerClassified(n: int, readsFloat: FloatReader)
    requires MIN_INT64 <= n <= MAX_INT64
    ensures Classify(OfInt(n), readsFloat) == Ok(IntegerToken)
  {
    hide ParseDateTime, IntCandidate, FloatCandidate, CapitalPrefix, IntegerLiteral, PlainBare, OfInt;
    var t := OfInt(n);
    IntegerRoundTrips(n);
    IntegerIsBare(n);
    NotADate(t, "");
    assert t + "" == t;
    NotAWord(n);
  }

  /** A number's text is no keyword and holds no space or equals sign. */
  lemma NotAWord(n: int)
    ensures var t := OfInt(n);
      '=' !in t && ' ' !in t && t != "true" && t != "false" && t !in SPECIAL_FLOATS
  {
    var digits := OfNat(if n < 0 then -n else n);
    assert n < 0 ==> OfInt(n)[1..] == digits;
    assert IsDigit(digits[0]);
    assert forall i :: 1 <= i < |OfInt(n)| ==> IsDigit(OfInt(n)[i]);
    assert "inf"[1] == 'n' && "nan"[1] == 'a' && "+inf"[1] == 'i' && "-inf"[1] == 'i' && "+nan"[1] == 'n' && "-nan"[1] == 'n';
  }

  function BoolText(b: bool): string {
    if b then "true" else "false"
  }

  lemma BoolClassified(b: bool, readsFloat: FloatReader)
    ensures PlainBare(BoolText(b)) && Classify(BoolText(b), readsFloat) == Ok(BoolToken)
  {
    hide ParseDateTime;
    var t := BoolText(b);
    assert PlainBare(t);
    NotADate(t, "");
    assert t + "" == t;
  }

  /** A scalar that can be printed and read: a string the writer takes, an `int64`, a boolean. */
  predicate ScalarFits(a: M.Atom, limits: Limits) {
    match a
    case Text(s) => Quote(s).Ok? && |Quote(s).value| <= limits.maxStringLength
    case Integer(n) => MIN_INT64 <= n <= MAX_INT64
    case Boolean(_) => true
    case Unread(_) => false
  }

  function KindOf(a: M.Atom): TokenKind {
    match a
    case Text(_) => StringValueToken
    case Integer(_) => IntegerToken
    case Boolean(_) => BoolToken
    case Unread(_) => FloatToken
  }

  lemma ScalarScanned(inp: Input, a: M.Atom, rest: string)
    requires ScalarFits(a, inp.limits) && Follows(rest)
    ensures FormatAtom(a).Ok?
    ensures var t := FormatAtom(a).value;
      && t != "" && t[0] !in "[]{},=# \t\n\r"
      && ScanValue(t + rest, inp).Ok? && ScanValue(t + rest, inp).value.kind == KindOf(a)
      && ScanValue(t + rest, inp).value.length == |t|
  {
    hide ScanValue, Classify, OfInt;
    match a
    case Text(s) => TextScanned(inp, s, rest);
    case Integer(n) =>
      IntegerClassified(n, inp.readsFloat);
      IntegerIsBare(n);
      BareStarts(OfInt(n));
      BareScanned(inp, OfInt(n), rest, IntegerToken);
    case Boolean(b) =>
      BoolClassified(b, inp.readsFloat);
      BareStarts(BoolText(b));
      BareScanned(inp, BoolText(b), rest, BoolToken);
  }

  lemma BareStarts(t: string)
    requires PlainBare(t) && (IsDigit(t[0]) || t[0] == '-' || t[0] == 't' || t[0] == 'f')
    ensures t[0] !in "[]{},=# \t\n\r"
  {
  }

  lemma TextScanned(inp: Input, s: string, rest: string)
    requires ScalarFits(M.Text(s), inp.limits) && Follows(rest)
    ensures var t := Quote(s).value;
      && t != "" && t[0] == '"'
      && ScanValue(t + rest, inp).Ok? && ScanValue(t + rest, inp).value.kind.StringValueToken?
      && ScanValue(t + rest, inp).value.length == |t|
  {
    hide ScanString, Escaped;
    QuoteScanned(s, rest);
    assert (Quote(s).value + rest)[0] == '"';
  }

  lemma ScalarReadsBack(inp: Input, a: M.Atom)
    requires ScalarFits(a, inp.limits) && FormatAtom(a).Ok?
    ensures ScalarOf(inp, FormatAtom(a).value, KindOf(a)) == Ok(M.Scalar(a))
  {
    hide StringValue, Escaped, IntegerLiteral;
    match a
    case Text(s) => QuoteRoundTrips(s);
    case Integer(n) => IntegerRoundTrips(n);
    case Boolean(_) =>
  }

  // ----- Turns at a token -----

  /** The decoder stands at a byte that is not white space, with nothing wrong and no line end due. */
  ghost predicate AtToken(inp: Input, s: State) {
    Inv(inp, s) && s.err.None? && s.off < |inp.buf| && !SpaceByte(inp.buf[s.off]) && !s.needLineEnd
  }

  ghost predicate AtValue(inp: Input, s: State) {
    AtToken(inp, s) && s.expectingValue && !s.needSeparator
  }

  /** The next token starts a value that parses to `v` and leaves the decoder in `after`. */
  ghost predicate Reads(inp: Input, st: State, v: M.Literal, after: State) {
    && Inv(inp, st) && Inv(inp, after) && st.off < after.off
    && match ReadToken(inp, st)
       case Tok(next, t) =>
         !t.kind.Comment? && !t.kind.ArrayEnd? && ParseToken(inp, next, t) == Ok(Parsed(v, after))
       case _ => false
  }

  /** One space in front of a token is passed over, whatever may start on the next line. */
  lemma SpaceSkipped(inp: Input, st: State)
    requires Inv(inp, st) && st.err.None? && st.off + 1 < |inp.buf| && inp.buf[st.off] == ' '
    ensures Inv(inp, st.(off := st.off + 1)) && ReadToken(inp, st) == ReadToken(inp, st.(off := st.off + 1))
  {
    hide ReadToken;
    Skipper.SameSpaceSameRead(inp, st, st.(off := st.off + 1));
  }

  lemma CloserRead(inp: Input, st: State, isArray: bool)
    requires AtToken(inp, st) && inp.buf[st.off] == if isArray then ']' else '}'
    ensures var turn := if isArray then ArrayEndTurn(st) else InlineEndTurn(st);
      ReadToken(inp, st) == Tok(turn.st, turn.token)
  {
    Skipper.ReadsAtToken(inp, st);
    TurnKeepsInv(inp, st);
  }

  lemma OpenerRead(inp: Input, s: State, isArray: bool)
    requires AtValue(inp, s) && inp.buf[s.off] == if isArray then '[' else '{'
    ensures var turn := if isArray then ArrayStartTurn(inp, s) else InlineStartTurn(s);
      Inv(inp, turn.st) && ReadToken(inp, s) == Tok(turn.st, turn.token)
  {
    hide Dispatch;
    Skipper.ReadsAtToken(inp, s);
    Skipper.OpenerDispatch(inp, s);
    TurnKeepsInv(inp, s);
  }

  lemma KeyRead(inp: Input, s: State, key: string, rest: string)
    requires AtToken(inp, s) && !s.expectingValue && !s.needSeparator
    requires FormatKey(key).Ok? && |FormatKey(key).value| <= inp.limits.maxKeyLength
    requires inp.buf[s.off..] == FormatKey(key).value + (" = " + rest)
    ensures var n := |FormatKey(key).value|;
      var next := s.(off := s.off + n + 2, atLineStart := false, expectingValue := true, valueNoNewline := true);
      Inv(inp, next) && ReadToken(inp, s) == Tok(next, Token(Key, s.off, s.off + n, false))
  {
    hide ScanKey, FormatKey;
    var text := FormatKey(key).value;
    KeyTokenReadsBack(key, rest, inp.limits.maxKeyLength);
    KeyStarts(key);
    assert inp.buf[s.off] == inp.buf[s.off..][0] == text[0];
    Skipper.ReadsAtToken(inp, s);
    TurnKeepsInv(inp, s);
  }

  lemma KeyStarts(key: string)
    requires FormatKey(key).Ok?
    ensures var text := FormatKey(key).value; text != "" && text[0] !in "[]{},=# \t\n\r"
  {
    hide FormatKey, Escaped;
    KeyIsBareOrQuoted(key);
  }

  lemma ScalarRead(inp: Input, s: State, a: M.Atom, rest: string)
    requires AtValue(inp, s) && ScalarFits(a, inp.limits) && Follows(rest) && FormatAtom(a).Ok?
    requires inp.buf[s.off..] == FormatAtom(a).value + rest
    ensures Reads(inp, s, M.Scalar(a), AfterValue(s, s.off + |FormatAtom(a).value|))
  {
    hide ScanValue, FormatAtom, ScalarFits, ScalarOf;
    var t := FormatAtom(a).value;
    ScalarScanned(inp, a, rest);
    ScalarReadsBack(inp, a);
    assert inp.buf[s.off] == inp.buf[s.off..][0] == t[0];
    Skipper.ReadsAtToken(inp, s);
    TurnKeepsInv(inp, s);
    assert inp.buf[s.off..s.off + |t|] == inp.buf[s.off..][..|t|] == t;
  }

  lemma NextReads(inp: Input, st: State, v: M.Literal, after: State)
    requires Reads(inp, st, v, after)
    ensures ParseNext(inp, st) == Ok(Parsed(v, after))
  {
    hide ReadToken, ParseToken;
  }

  // ----- Values of any shape -----

  /** A value within the limits of the decoder, inside `depth` arrays. */
  predicate LiteralFits(v: M.Literal, limits: Limits, depth: nat)
    decreases v
  {
    match v
    case Scalar(a) => ScalarFits(a, limits)
    case Array(items) =>
      (limits.maxNestedDepth > 0 ==> depth + 1 <= limits.maxNestedDepth)
      && forall i :: 0 <= i < |items| ==> LiteralFits(items[i], limits, depth + 1)
    case InlineTable(entries) =>
      forall i :: 0 <= i < |entries| ==>
        KeyFits(entries[i].key, limits) && LiteralFits(entries[i].value, limits, depth)
  }

  predicate KeyFits(key: string, limits: Limits) {
    FormatKey(key).Ok? && |FormatKey(key).value| <= limits.maxKeyLength
  }

  lemma Advance(buf: string, off: nat, a: string, b: string)
    requires off <= |buf| && buf[off..] == a + b
    ensures off + |a| <= |buf| && buf[off + |a|..] == b
    ensures a != "" ==> off < |buf| && buf[off] == a[0]
    ensures b != "" ==> off + |a| < |buf| && buf[off + |a|] == b[0]
  {
    assert buf[off..][|a|..] == buf[off + |a|..];
    assert (a + b)[|a|..] == b;
    if a != "" {
      assert buf[off..][0] == a[0];
    }
    if b != "" {
      assert buf[off + |a|..][0] == b[0];
    }
  }

  /** What every printed value that fits starts with. */
  lemma {:induction false} LiteralStarts(v: M.Literal, limits: Limits, depth: nat)
    requires LiteralFits(v, limits, depth) && FormatLiteral(v).Ok?
    ensures var t := FormatLiteral(v).value; t != "" && t[0] !in "]},=# \t\n\r"
  {
    match v
    case Scalar(Text(s)) =>
    case Scalar(Integer(n)) =>
      var digits := OfNat(if n < 0 then -n else n);
      assert IsDigit(digits[0]);
    case Scalar(Boolean(b)) =>
    case Array(_) =>
    case InlineTable(_) =>
  }

  // ----- Arrays -----

  /** Inside an array, before an element or after one. */
  ghost predicate InArrayAt(inp: Input, b: State, first: bool) {
    && Inv(inp, b) && b.err.None? && b.off < |inp.buf| && !b.needLineEnd
    && InnermostIsArray(b.stack) && b.expectingValue && !b.valueNoNewline && b.needSeparator == !first
    && b.arrayDepth > 0
  }

  /** The state behind the bracket that closes the array. */
  function ClosedArray(b: State, end: nat): State {
    AfterValue(b.(arrayDepth := if b.arrayDepth > 0 then b.arrayDepth - 1 else 0, stack := Pop(b.stack, InArray)), end)
  }

  function ItemsText(items: seq<M.Literal>, first: bool): Result<string, WriteFault> {
    if first then FormatItems(items) else FormatItemsAfter(items)
  }

  /** Where the next element starts: behind the comma and the space, if there was an element before. */
  lemma ItemStart(inp: Input, b: State, first: bool, text: string, rest: string) returns (s: State)
    requires InArrayAt(inp, b, first) && text != "" && text[0] !in "]},=# \t\n\r"
    requires inp.buf[b.off..] == (if first then "" else ", ") + (text + rest)
    ensures AtValue(inp, s) && inp.buf[s.off..] == text + rest && ReadToken(inp, s) == ReadToken(inp, b)
    ensures s == b.(off := b.off + (if first then 0 else 2), atLineStart := s.atLineStart, needSeparator := false)
  {
    hide ReadToken;
    Advance(inp.buf, b.off, if first then "" else ", ", text + rest);
    assert (text + rest)[0] == text[0];
    s := b;
    if !first {
      assert inp.buf[b.off..][1] == ' ' && inp.buf[b.off..][1] == inp.buf[b.off + 1];
      Skipper.CommaRead(inp, b);
      s := b.(off := b.off + 1, atLineStart := false, needSeparator := false, expectingValue := true);
      SpaceSkipped(inp, s);
      s := s.(off := b.off + 2);
    }
  }

  lemma ItemTexts(items: seq<M.Literal>, first: bool)
    requires items != [] && ItemsText(items, first).Ok?
    ensures FormatLiteral(items[0]).Ok? && FormatItemsAfter(items[1..]).Ok?
    ensures ItemsText(items, first).value
         == (if first then "" else ", ") + (FormatLiteral(items[0]).value + FormatItemsAfter(items[1..]).value)
  {
    hide FormatLiteral;
    if first {
      assert "" + (FormatLiteral(items[0]).value + FormatItemsAfter(items[1..]).value)
          == FormatLiteral(items[0]).value + FormatItemsAfter(items[1..]).value;
    }
  }

  lemma FollowsItem(items: seq<M.Literal>, rest: string)
    requires FormatItemsAfter(items).Ok?
    ensures Follows(FormatItemsAfter(items).value + ("]" + rest))
  {
  }

  lemma ArrayStep(inp: Input, b: State, s: State, v: M.Literal, after: State, done: seq<M.Literal>)
    requires Inv(inp, b) && Reads(inp, s, v, after) && ReadToken(inp, s) == ReadToken(inp, b)
    ensures ParseArray(inp, b, done) == ParseArray(inp, after, done + [v])
  {
    hide ReadToken, ParseToken;
  }

  lemma ArrayCloses(inp: Input, b: State, first: bool, done: seq<M.Literal>)
    requires InArrayAt(inp, b, first) && inp.buf[b.off] == ']'
    ensures ParseArray(inp, b, done) == Ok(Parsed(M.Array(done), ClosedArray(b, b.off + 1)))
  {
    hide ReadToken, ParseToken;
    CloserRead(inp, b, true);
  }

  lemma AfterItem(inp: Input, b: State, s: State, end: nat)
    requires InArrayAt(inp, b, true) || InArrayAt(inp, b, false)
    requires s == b.(off := s.off, atLineStart := s.atLineStart, needSeparator := false)
    requires Inv(inp, AfterValue(s, end)) && end < |inp.buf|
    ensures InArrayAt(inp, AfterValue(s, end), false)
    ensures forall e :: ClosedArray(AfterValue(s, end), e) == ClosedArray(b, e)
  {
  }

  predicate ItemsFit(items: seq<M.Literal>, limits: Limits, depth: nat) {
    forall i :: 0 <= i < |items| ==> LiteralFits(items[i], limits, depth) && WellKeyed(items[i])
  }

  lemma FirstItemFits(items: seq<M.Literal>, limits: Limits, depth: nat)
    requires items != [] && ItemsFit(items, limits, depth)
    ensures LiteralFits(items[0], limits, depth) && WellKeyed(items[0]) && ItemsFit(items[1..], limits, depth)
  {
    hide LiteralFits, WellKeyed;
  }

  lemma {:induction false} ItemsRead(inp: Input, b: State, done: seq<M.Literal>, todo: seq<M.Literal>, rest: string,
                                     first: bool)
    requires InArrayAt(inp, b, first) && ItemsText(todo, first).Ok? && ItemsFit(todo, inp.limits, b.arrayDepth)
    requires inp.buf[b.off..] == ItemsText(todo, first).value + ("]" + rest)
    ensures var end := b.off + |ItemsText(todo, first).value| + 1;
      end <= |inp.buf| && ParseArray(inp, b, done) == Ok(Parsed(M.Array(done + todo), ClosedArray(b, end)))
    decreases todo, 1
  {
    hide ReadToken, ParseArray, ClosedArray, Inv, InArrayAt, ItemsText, ItemsFit;
    InArrayMeans(inp, b, first);
    Advance(inp.buf, b.off, ItemsText(todo, first).value, "]" + rest);
    if todo == [] {
      NoItems(first);
      assert done + todo == done;
      ArrayCloses(inp, b, first, done);
    } else {
      FirstItemFits(todo, inp.limits, b.arrayDepth);
      var after := ItemRead(inp, b, done, todo, rest, first);
      LaterItems(todo[1..]);
      ItemsRead(inp, after, done + [todo[0]], todo[1..], rest, false);
      assert done + [todo[0]] + todo[1..] == done + todo;
    }
  }

  /** The first of the items that are left. */
  lemma {:induction false} ItemRead(inp: Input, b: State, done: seq<M.Literal>, todo: seq<M.Literal>, rest: string,
                                    first: bool) returns (after: State)
    requires todo != [] && InArrayAt(inp, b, first) && ItemsText(todo, first).Ok?
    requires LiteralFits(todo[0], inp.limits, b.arrayDepth) && WellKeyed(todo[0])
    requires inp.buf[b.off..] == ItemsText(todo, first).value + ("]" + rest)
    ensures var text, more := ItemsText(todo, first).value, FormatItemsAfter(todo[1..]);
      && InArrayAt(inp, after, false) && after.arrayDepth == b.arrayDepth && more.Ok?
      && inp.buf[after.off..] == more.value + ("]" + rest) && after.off + |more.value| == b.off + |text|
      && ParseArray(inp, b, done) == ParseArray(inp, after, done + [todo[0]])
      && forall e :: ClosedArray(after, e) == ClosedArray(b, e)
    decreases todo, 0
  {
    hide ReadToken, ParseToken, ParseArray, FormatLiteral, LiteralFits, WellKeyed, ClosedArray, AfterValue, Inv;
    hide AtValue, InArrayAt, Reads, Follows, ItemsText, FormatItemsAfter;
    InArrayMeans(inp, b, first);
    var v, text := todo[0], ItemsText(todo, first).value;
    ItemTexts(todo, first);
    var t, more := FormatLiteral(v).value, FormatItemsAfter(todo[1..]).value;
    var tail := more + ("]" + rest);
    ItemAndTail(text, if first then "" else ", ", t, more, "]" + rest);
    LiteralStarts(v, inp.limits, b.arrayDepth);
    var s := ItemStart(inp, b, first, t, tail);
    FollowsItem(todo[1..], rest);
    LiteralRead(inp, s, v, tail);
    after := AfterValue(s, s.off + |t|);
    ArrayStep(inp, b, s, v, after, done);
    ReadsKeeps(inp, s, v, after);
    Advance(inp.buf, s.off, t, tail);
    AfterItem(inp, b, s, s.off + |t|);
    AfterKeeps(s, s.off + |t|);
  }

  lemma InArrayMeans(inp: Input, b: State, first: bool)
    requires InArrayAt(inp, b, first)
    ensures Inv(inp, b) && b.off < |inp.buf|
  {
  }

  lemma NoItems(first: bool)
    ensures ItemsText([], first) == Ok("")
  {
  }

  lemma LaterItems(items: seq<M.Literal>)
    ensures ItemsText(items, false) == FormatItemsAfter(items)
  {
  }

  lemma ItemAndTail(text: string, sep: string, t: string, more: string, rest: string)
    requires text == sep + (t + more)
    ensures text + rest == sep + (t + (more + rest)) && |text| == |sep| + |t| + |more|
  {
    assert text + rest == sep + (t + (more + rest));
  }

  lemma ReadsKeeps(inp: Input, st: State, v: M.Literal, after: State)
    requires Reads(inp, st, v, after)
    ensures Inv(inp, after) && st.off < after.off
  {
    hide ReadToken, ParseToken;
  }

  lemma AfterKeeps(s: State, end: nat)
    ensures AfterValue(s, end).off == end && AfterValue(s, end).arrayDepth == s.arrayDepth
  {
  }

  /** A printed value that fits is read back, and leaves the decoder behind it. */
  lemma {:induction false} LiteralRead(inp: Input, s: State, v: M.Literal, rest: string)
    requires AtValue(inp, s) && FormatLiteral(v).Ok? && Follows(rest)
    requires LiteralFits(v, inp.limits, s.arrayDepth) && WellKeyed(v)
    requires inp.buf[s.off..] == FormatLiteral(v).value + rest
    ensures Reads(inp, s, v, AfterValue(s, s.off + |FormatLiteral(v).value|))
    decreases v, 1
  {
    hide AtValue, Reads, Follows, AfterValue, Inv, FormatItems, FormatEntries;
    match v
    case Scalar(a) => ScalarRead(inp, s, a, rest);
    case Array(items) => ArrayRead(inp, s, items, rest);
    case InlineTable(entries) => InlineRead(inp, s, entries, rest);
  }

  lemma {:induction false} ArrayRead(inp: Input, s: State, items: seq<M.Literal>, rest: string)
    requires AtValue(inp, s) && FormatItems(items).Ok? && Follows(rest)
    requires LiteralFits(M.Array(items), inp.limits, s.arrayDepth) && WellKeyed(M.Array(items))
    requires inp.buf[s.off..] == "[" + FormatItems(items).value + "]" + rest
    ensures Reads(inp, s, M.Array(items), AfterValue(s, s.off + |FormatItems(items).value| + 2))
    decreases items, 2
  {
    hide ReadToken, ParseToken, ParseArray, FormatItems, InArrayAt, AtValue, Inv;
    var text := FormatItems(items).value;
    AtValueMeans(inp, s);
    assert "[" + text + "]" + rest == "[" + (text + ("]" + rest));
    Advance(inp.buf, s.off, "[", text + ("]" + rest));
    OpenerRead(inp, s, true);
    var b := ArrayStartTurn(inp, s).st;
    ArrayOpened(inp, s);
    ArrayFits(items, inp.limits, s.arrayDepth);
    ItemsRead(inp, b, [], items, rest, true);
    assert [] + items == items;
    OpenedArrayCloses(inp, s, items, s.off + |text| + 2);
  }

  lemma OpenedArrayCloses(inp: Input, s: State, items: seq<M.Literal>, end: nat)
    requires AtValue(inp, s) && end <= |inp.buf| && Inv(inp, ArrayStartTurn(inp, s).st)
    requires inp.limits.maxNestedDepth > 0 ==> s.arrayDepth + 1 <= inp.limits.maxNestedDepth
    requires ReadToken(inp, s) == Tok(ArrayStartTurn(inp, s).st, Token(ArrayStart, s.off, s.off + 1, false))
    requires s.off + 1 < end
    requires var b := ArrayStartTurn(inp, s).st; ParseArray(inp, b, []) == Ok(Parsed(M.Array(items), ClosedArray(b, end)))
    ensures Reads(inp, s, M.Array(items), AfterValue(s, end))
  {
    hide ReadToken, ParseArray;
    var b := ArrayStartTurn(inp, s).st;
    assert (s.stack + [InArray])[..|s.stack|] == s.stack;
    assert ClosedArray(b, end) == AfterValue(s, end);
  }

  // ----- Inline tables -----

  /** Inside an inline table, before a key or after a value. */
  ghost predicate InInlineAt(inp: Input, b: State, first: bool) {
    && Inv(inp, b) && b.err.None? && b.off < |inp.buf| && !b.needLineEnd
    && b.stack != [] && b.stack[|b.stack| - 1] == InInline && !b.expectingValue && !b.valueNoNewline
    && b.needSeparator == !first && b.inlineDepth > 0
  }

  lemma InInlineMeans(inp: Input, b: State, first: bool)
    requires InInlineAt(inp, b, first)
    ensures Inv(inp, b) && b.off < |inp.buf|
  {
  }

  /** The state behind the brace that closes the inline table. */
  function ClosedInline(b: State, end: nat): State {
    AfterValue(b.(inlineDepth := if b.inlineDepth > 0 then b.inlineDepth - 1 else 0, stack := Pop(b.stack, InInline)), end)
  }

  /** What is left of an inline table's text: a space first, or a comma and a space, in front of every entry. */
  function EntriesText(entries: seq<M.Field>, first: bool): Result<string, WriteFault> {
    var text :- if first then FormatEntries(entries) else FormatEntriesAfter(entries);
    Ok(if first then " " + text else text)
  }

  lemma EntryText(e: M.Field)
    ensures FormatEntry(e)
         == if FormatKey(e.key).Err? then Err(FormatKey(e.key).error)
            else if FormatLiteral(e.value).Err? then Err(FormatLiteral(e.value).error)
            else Ok(FormatKey(e.key).value + " = " + FormatLiteral(e.value).value)
  {
    hide FormatLiteral, FormatKey;
  }

  lemma EntryTexts(entries: seq<M.Field>, first: bool)
    requires entries != [] && EntriesText(entries, first).Ok?
    ensures FormatKey(entries[0].key).Ok? && FormatLiteral(entries[0].value).Ok? && FormatEntriesAfter(entries[1..]).Ok?
    ensures EntriesText(entries, first).value
         == (if first then " " else ", ")
            + (FormatKey(entries[0].key).value + " = "
               + (FormatLiteral(entries[0].value).value + FormatEntriesAfter(entries[1..]).value))
  {
    hide FormatLiteral, FormatKey;
    EntryText(entries[0]);
    var k, t := FormatKey(entries[0].key).value, FormatLiteral(entries[0].value).value;
    var more := FormatEntriesAfter(entries[1..]).value;
    assert k + " = " + t + more == k + " = " + (t + more);
  }

  lemma NoEntries(first: bool)
    ensures EntriesText([], first) == Ok(if first then " " else "")
  {
    assert " " + "" == " ";
  }

  lemma LaterEntries(entries: seq<M.Field>)
    ensures EntriesText(entries, false) == FormatEntriesAfter(entries)
  {
  }

  /** Where the next key starts. */
  lemma EntryStart(inp: Input, b: State, first: bool, key: string, rest: string) returns (s: State)
    requires InInlineAt(inp, b, first) && FormatKey(key).Ok?
    requires inp.buf[b.off..] == (if first then " " else ", ") + (FormatKey(key).value + rest)
    ensures AtToken(inp, s) && inp.buf[s.off..] == FormatKey(key).value + rest && ReadToken(inp, s) == ReadToken(inp, b)
    ensures s == b.(off := b.off + (if first then 1 else 2), atLineStart := s.atLineStart, needSeparator := false)
  {
    hide ReadToken, FormatKey;
    var text := FormatKey(key).value;
    KeyStarts(key);
    Advance(inp.buf, b.off, if first then " " else ", ", text + rest);
    assert (text + rest)[0] == text[0];
    s := b;
    if !first {
      assert inp.buf[b.off..][1] == ' ' && inp.buf[b.off..][1] == inp.buf[b.off + 1];
      Skipper.CommaRead(inp, b);
      s := b.(off := b.off + 1, atLineStart := false, needSeparator := false);
    }
    SpaceSkipped(inp, s);
    s := s.(off := s.off + 1);
  }

  /** The key of an entry, and the space in front of its value. */
  lemma EntryKeyRead(inp: Input, s: State, key: string, t: string, rest: string) returns (next: State, at: State)
    requires AtToken(inp, s) && !s.expectingValue && !s.needSeparator && KeyFits(key, inp.limits)
    requires inp.buf[s.off..] == FormatKey(key).value + (" = " + (t + rest))
    requires t != "" && t[0] !in "]},=# \t\n\r"
    ensures Inv(inp, next) && ReadToken(inp, s) == Tok(next, Token(Key, s.off, s.off + |FormatKey(key).value|, false))
    ensures AtValue(inp, at) && inp.buf[at.off..] == t + rest && ReadToken(inp, at) == ReadToken(inp, next)
    ensures s.off + |FormatKey(key).value| <= |inp.buf| && s.off < next.off < at.off
    ensures inp.buf[s.off..s.off + |FormatKey(key).value|] == FormatKey(key).value
    ensures at == s.(off := s.off + |FormatKey(key).value| + 3, atLineStart := false, expectingValue := true,
                     valueNoNewline := true)
  {
    hide ReadToken, FormatKey;
    var text := FormatKey(key).value;
    KeyRead(inp, s, key, t + rest);
    Advance(inp.buf, s.off, text, " = " + (t + rest));
    assert inp.buf[s.off..s.off + |text|] == inp.buf[s.off..][..|text|] == text;
    next := s.(off := s.off + |text| + 2, atLineStart := false, expectingValue := true, valueNoNewline := true);
    Advance(inp.buf, s.off + |text|, " = ", t + rest);
    assert inp.buf[s.off + |text|..][2] == ' ' && inp.buf[s.off + |text|..][2] == inp.buf[next.off];
    assert (t + rest)[0] == t[0];
    SpaceSkipped(inp, next);
    at := next.(off := next.off + 1);
  }

  /** The keys read so far are what is closed. */
  ghost predicate ClosedOnly(closed: M.Marks, done: seq<M.Field>) {
    forall p: KeyPath :: NulFree(p) && Encode(p) in closed ==> HasKey(done, p[0])
  }

  lemma KeyIsOpen(closed: M.Marks, done: seq<M.Field>, key: Segment)
    requires ClosedOnly(closed, done) && NulFreeText(key) && !HasKey(done, key)
    ensures !M.ClosedPrefix([key], closed, map[])
  {
    forall i | 1 <= i <= 1 ensures !M.MarkedNow(closed, [key][..i], map[]) {
      assert [key][..1] == [key] && NulFree([key]);
    }
  }

  lemma StillClosedOnly(closed: M.Marks, done: seq<M.Field>, f: M.Field)
    requires ClosedOnly(closed, done) && NulFreeText(f.key) && WellKeyed(f.value)
    ensures ClosedOnly(M.MarkClosed(closed, [f.key], f.value, map[]), done + [f])
  {
    var after := M.MarkClosed(closed, [f.key], f.value, map[]);
    forall p: KeyPath | NulFree(p) && Encode(p) in after ensures HasKey(done + [f], p[0]) {
      assert (done + [f])[|done|] == f;
      if p[0] != f.key {
        MarkClosedOnly(closed, [f.key], f.value, map[], p);
        var i :| 0 <= i < |done| && done[i].key == p[0];
        assert (done + [f])[i] == done[i];
      }
    }
  }

  lemma AssignedNew(done: seq<M.Field>, f: M.Field)
    requires !HasKey(done, f.key)
    ensures AssignInline(done, [f.key], f.value) == Ok(done + [f])
  {
    var i := IndexOf(done, f.key);
  }

  /** One entry: its key token, its value, and what becomes of the table. */
  lemma InlineStep(inp: Input, b: State, next: State, t: Token, key: Segment, v: M.Literal, after: State,
                   done: seq<M.Field>, closed: M.Marks)
    requires Inv(inp, b) && ReadToken(inp, b) == Tok(next, t) && Inv(inp, next) && t.kind.Key?
    requires ParseDottedKey(Raw(inp, t)) == Ok([key]) && ParseNext(inp, next) == Ok(Parsed(v, after))
    requires !M.ClosedPrefix([key], closed, map[]) && AssignInline(done, [key], v) == Ok(done + [M.Field(key, v)])
    requires Inv(inp, after) && b.off < after.off
    ensures ParseInline(inp, b, done, closed)
         == ParseInline(inp, after, done + [M.Field(key, v)], M.MarkClosed(closed, [key], v, map[]))
  {
    hide ReadToken, ParseNext, ParseDottedKey, AssignInline, M.ClosedPrefix, M.MarkClosed, Raw, Inv;
  }

  lemma KeyTextReadsBack(key: Segment)
    requires FormatKey(key).Ok?
    ensures ParseDottedKey(FormatKey(key).value) == Ok([key]) && KeyPathOf(FormatKey(key).value) == Ok([key])
  {
    hide FormatKey;
    assert FormatPath([key]) == FormatKey(key);
    PathReadsBack([key]);
  }

  lemma ReadsFrom(inp: Input, at: State, next: State, v: M.Literal, after: State)
    requires Reads(inp, at, v, after) && Inv(inp, next) && ReadToken(inp, at) == ReadToken(inp, next) && next.off < at.off
    ensures Reads(inp, next, v, after)
  {
    hide ReadToken, ParseToken;
  }

  lemma InlineCloses(inp: Input, b: State, s: State, done: seq<M.Field>, closed: M.Marks)
    requires Inv(inp, b) && AtToken(inp, s) && inp.buf[s.off] == '}' && ReadToken(inp, s) == ReadToken(inp, b)
    ensures ParseInline(inp, b, done, closed) == Ok(Parsed(M.InlineTable(done), ClosedInline(s, s.off + 1)))
  {
    hide ReadToken, ParseToken, ParseDottedKey;
    CloserRead(inp, s, false);
  }

  /** The spaces in front of the brace that closes the table. */
  lemma InlineEnd(inp: Input, b: State, first: bool, rest: string) returns (s: State)
    requires InInlineAt(inp, b, first)
    requires inp.buf[b.off..] == (if first then " " else "") + (" }" + rest)
    ensures AtToken(inp, s) && inp.buf[s.off] == '}' && ReadToken(inp, s) == ReadToken(inp, b)
    ensures s == b.(off := b.off + (if first then 2 else 1))
  {
    hide ReadToken;
    Advance(inp.buf, b.off, if first then " " else "", " }" + rest);
    s := b;
    if first {
      SpaceSkipped(inp, s);
      s := s.(off := s.off + 1);
    }
    assert inp.buf[s.off..] == " }" + rest;
    assert inp.buf[s.off..][1] == '}' && inp.buf[s.off..][1] == inp.buf[s.off + 1];
    SpaceSkipped(inp, s);
    s := s.(off := s.off + 1);
  }

  lemma FollowsEntry(entries: seq<M.Field>, rest: string)
    requires FormatEntriesAfter(entries).Ok?
    ensures Follows(FormatEntriesAfter(entries).value + (" }" + rest))
  {
    if entries == [] {
      assert "" + (" }" + rest) == " }" + rest;
    }
  }

  lemma AfterEntry(inp: Input, b: State, first: bool, at: State, end: nat)
    requires InInlineAt(inp, b, first)
    requires at == b.(off := at.off, atLineStart := false, needSeparator := false, expectingValue := true,
                      valueNoNewline := true)
    requires Inv(inp, AfterValue(at, end)) && end < |inp.buf|
    ensures InInlineAt(inp, AfterValue(at, end), false)
    ensures forall e :: ClosedInline(AfterValue(at, end), e) == ClosedInline(b, e)
  {
  }

  lemma NewKey(done: seq<M.Field>, todo: seq<M.Field>)
    requires todo != [] && DistinctKeys(done + todo)
    ensures !HasKey(done, todo[0].key) && done + [todo[0]] + todo[1..] == done + todo
  {
    forall i | 0 <= i < |done| ensures done[i].key != todo[0].key {
      assert (done + todo)[i] == done[i] && (done + todo)[|done|] == todo[0];
    }
  }

  lemma EntryAndTail(text: string, sep: string, k: string, t: string, more: string, rest: string)
    requires text == sep + (k + " = " + (t + more))
    ensures text + rest == sep + (k + (" = " + (t + (more + rest)))) && |text| == |sep| + |k| + 3 + |t| + |more|
  {
    assert text + rest == sep + (k + (" = " + (t + (more + rest))));
  }

  lemma {:induction false} EntriesRead(inp: Input, b: State, done: seq<M.Field>, todo: seq<M.Field>, closed: M.Marks,
                                       rest: string, first: bool)
    requires InInlineAt(inp, b, first) && EntriesText(todo, first).Ok? && ClosedOnly(closed, done)
    requires DistinctKeys(done + todo) && EntriesFit(todo, inp.limits, b.arrayDepth)
    requires inp.buf[b.off..] == EntriesText(todo, first).value + (" }" + rest)
    ensures var end := b.off + |EntriesText(todo, first).value| + 2;
      end <= |inp.buf|
      && ParseInline(inp, b, done, closed) == Ok(Parsed(M.InlineTable(done + todo), ClosedInline(b, end)))
    decreases todo, 1
  {
    hide ReadToken, ParseInline, ClosedInline, Inv, AtToken, InInlineAt, EntriesText, ClosedOnly, DistinctKeys, EntriesFit;
    InInlineMeans(inp, b, first);
    var text := EntriesText(todo, first).value;
    Advance(inp.buf, b.off, text, " }" + rest);
    if todo == [] {
      NoEntries(first);
      var s := InlineEnd(inp, b, first, rest);
      assert done + todo == done;
      InlineCloses(inp, b, s, done, closed);
      SameClosedInline(b, s, s.off + 1);
    } else {
      var f := todo[0];
      NewKey(done, todo);
      FirstFits(todo, inp.limits, b.arrayDepth);
      var after := EntryRead(inp, b, done, todo, closed, rest, first);
      StillClosedOnly(closed, done, f);
      LaterEntries(todo[1..]);
      EntriesRead(inp, after, done + [f], todo[1..], M.MarkClosed(closed, [f.key], f.value, map[]), rest, false);
    }
  }

  predicate EntriesFit(entries: seq<M.Field>, limits: Limits, depth: nat) {
    forall i :: 0 <= i < |entries| ==>
      KeyFits(entries[i].key, limits) && LiteralFits(entries[i].value, limits, depth)
      && NulFreeText(entries[i].key) && WellKeyed(entries[i].value)
  }

  lemma FirstFits(entries: seq<M.Field>, limits: Limits, depth: nat)
    requires entries != [] && EntriesFit(entries, limits, depth)
    ensures KeyFits(entries[0].key, limits) && LiteralFits(entries[0].value, limits, depth)
    ensures NulFreeText(entries[0].key) && WellKeyed(entries[0].value) && EntriesFit(entries[1..], limits, depth)
  {
    hide KeyFits, LiteralFits, WellKeyed;
  }

  /** The first of the entries that are left. */
  lemma {:induction false} EntryRead(inp: Input, b: State, done: seq<M.Field>, todo: seq<M.Field>, closed: M.Marks,
                                     rest: string, first: bool) returns (after: State)
    requires todo != [] && InInlineAt(inp, b, first) && EntriesText(todo, first).Ok? && ClosedOnly(closed, done)
    requires !HasKey(done, todo[0].key)
    requires KeyFits(todo[0].key, inp.limits) && LiteralFits(todo[0].value, inp.limits, b.arrayDepth)
    requires NulFreeText(todo[0].key) && WellKeyed(todo[0].value)
    requires inp.buf[b.off..] == EntriesText(todo, first).value + (" }" + rest)
    ensures var f, text, more := todo[0], EntriesText(todo, first).value, FormatEntriesAfter(todo[1..]);
      && InInlineAt(inp, after, false) && after.arrayDepth == b.arrayDepth && more.Ok?
      && inp.buf[after.off..] == more.value + (" }" + rest) && after.off + |more.value| == b.off + |text|
      && ParseInline(inp, b, done, closed)
         == ParseInline(inp, after, done + [f], M.MarkClosed(closed, [f.key], f.value, map[]))
      && forall e :: ClosedInline(after, e) == ClosedInline(b, e)
    decreases todo, 0
  {
    hide ReadToken, ParseToken, ParseInline, FormatLiteral, FormatKey, LiteralFits, WellKeyed, ClosedInline, AfterValue;
    hide Inv, AtValue, AtToken, InInlineAt, Reads, Follows, EntriesText, ClosedOnly, HasKey, ParseNext, ParseDottedKey;
    hide M.ClosedPrefix, AssignInline, M.MarkClosed, FormatEntriesAfter, KeyFits;
    InInlineMeans(inp, b, first);
    var f, text := todo[0], EntriesText(todo, first).value;
    EntryTexts(todo, first);
    var k, t := FormatKey(f.key).value, FormatLiteral(f.value).value;
    var more := FormatEntriesAfter(todo[1..]).value;
    var tail := more + (" }" + rest);
    EntryAndTail(text, if first then " " else ", ", k, t, more, " }" + rest);
    LiteralStarts(f.value, inp.limits, b.arrayDepth);
    var s := EntryStart(inp, b, first, f.key, " = " + (t + tail));
    KeyStateFlags(inp, b, first);
    var next, at := EntryKeyRead(inp, s, f.key, t, tail);
    FollowsEntry(todo[1..], rest);
    LiteralRead(inp, at, f.value, tail);
    after := AfterValue(at, at.off + |t|);
    ReadsKeeps(inp, at, f.value, after);
    ReadsFrom(inp, at, next, f.value, after);
    NextReads(inp, next, f.value, after);
    KeyTextReadsBack(f.key);
    KeyIsOpen(closed, done, f.key);
    AssignedNew(done, f);
    InlineStep(inp, b, next, Token(Key, s.off, s.off + |k|, false), f.key, f.value, after, done, closed);
    Advance(inp.buf, at.off, t, tail);
    AfterEntry(inp, b, first, at, at.off + |t|);
    AfterKeeps(at, at.off + |t|);
  }

  lemma KeyStateFlags(inp: Input, b: State, first: bool)
    requires InInlineAt(inp, b, first)
    ensures !b.expectingValue
  {
  }

  lemma SameClosedInline(b: State, s: State, end: nat)
    requires s == b.(off := s.off)
    ensures ClosedInline(s, end) == ClosedInline(b, end)
  {
  }

  lemma InlineGroups(text: string, rest: string)
    ensures "{ " + text + " }" + rest == "{" + (" " + text + (" }" + rest))
  {
  }

  lemma {:induction false} InlineRead(inp: Input, s: State, entries: seq<M.Field>, rest: string)
    requires AtValue(inp, s) && FormatEntries(entries).Ok? && Follows(rest)
    requires LiteralFits(M.InlineTable(entries), inp.limits, s.arrayDepth) && WellKeyed(M.InlineTable(entries))
    requires inp.buf[s.off..] == "{ " + FormatEntries(entries).value + " }" + rest
    ensures Reads(inp, s, M.InlineTable(entries), AfterValue(s, s.off + |FormatEntries(entries).value| + 4))
    decreases entries, 2
  {
    hide ReadToken, ParseToken, ParseInline, FormatEntries, InInlineAt, AtValue, Inv, EntriesFit, DistinctKeys, Follows;
    var text := FormatEntries(entries).value;
    AtValueMeans(inp, s);
    InlineGroups(text, rest);
    Advance(inp.buf, s.off, "{", " " + text + (" }" + rest));
    OpenerRead(inp, s, false);
    var b := InlineStartTurn(s).st;
    InlineOpened(inp, s);
    assert [] + entries == entries;
    InlineFits(entries, inp.limits, s.arrayDepth);
    EntriesRead(inp, b, [], entries, map[], rest, true);
    OpenedInlineCloses(inp, s, entries, s.off + |text| + 4);
  }

  lemma AtValueMeans(inp: Input, s: State)
    requires AtValue(inp, s)
    ensures Inv(inp, s) && s.off < |inp.buf|
  {
  }

  lemma InlineOpened(inp: Input, s: State)
    requires AtValue(inp, s) && s.off + 1 < |inp.buf| && Inv(inp, InlineStartTurn(s).st)
    ensures InInlineAt(inp, InlineStartTurn(s).st, true) && InlineStartTurn(s).st.arrayDepth == s.arrayDepth
  {
  }

  lemma ArrayFits(items: seq<M.Literal>, limits: Limits, depth: nat)
    requires LiteralFits(M.Array(items), limits, depth) && WellKeyed(M.Array(items))
    ensures ItemsFit(items, limits, depth + 1) && (limits.maxNestedDepth > 0 ==> depth + 1 <= limits.maxNestedDepth)
  {
  }

  lemma ArrayOpened(inp: Input, s: State)
    requires AtValue(inp, s) && s.off + 1 < |inp.buf| && Inv(inp, ArrayStartTurn(inp, s).st)
    requires inp.limits.maxNestedDepth > 0 ==> s.arrayDepth + 1 <= inp.limits.maxNestedDepth
    ensures InArrayAt(inp, ArrayStartTurn(inp, s).st, true) && ArrayStartTurn(inp, s).st.arrayDepth == s.arrayDepth + 1
  {
  }

  lemma InlineFits(entries: seq<M.Field>, limits: Limits, depth: nat)
    requires LiteralFits(M.InlineTable(entries), limits, depth) && WellKeyed(M.InlineTable(entries))
    ensures EntriesFit(entries, limits, depth) && DistinctKeys(entries)
  {
    hide KeyFits;
  }

  lemma OpenedInlineCloses(inp: Input, s: State, entries: seq<M.Field>, end: nat)
    requires AtValue(inp, s) && end <= |inp.buf| && Inv(inp, InlineStartTurn(s).st)
    requires ReadToken(inp, s) == Tok(InlineStartTurn(s).st, Token(InlineTableStart, s.off, s.off + 1, false))
    requires s.off + 1 < end
    requires var b := InlineStartTurn(s).st;
      ParseInline(inp, b, [], map[]) == Ok(Parsed(M.InlineTable(entries), ClosedInline(b, end)))
    ensures Reads(inp, s, M.InlineTable(entries), AfterValue(s, end))
  {
    hide ReadToken, ParseInline;
    var b := InlineStartTurn(s).st;
    assert (s.stack + [InInline])[..|s.stack|] == s.stack;
    assert ClosedInline(b, end) == AfterValue(s, end);
  }
}
