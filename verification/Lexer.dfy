/**
 The leaf scanners of the tokenizer: comments, quoted keys, strings, dotted keys, headers and bare values. Each works
 on the rest of the input from where it starts, and answers a length.
 */
module Lexer {
  import opened Results
  import opened Bytes
  import opened Paths
  import opened StringParser
  import opened StringWriter
  import opened Integers
  import opened DateTimes

  datatype KeyFault = EmptyKey | EmptySegment | UnexpectedInKey | UnterminatedQuotedKey | BadQuotedKey(fault: StringFault)

  /** What a syntax error complains of. */
  datatype Problem =
    | LoneCarriageReturn | ControlInComment | ControlInValue | NoKey | NoTableKey | ExpectedArraySeparator
    | ExpectedComma | ExpectedEquals | ExpectedInlineSeparator | ExpectedNewline | ExpectedValue | NotUtf8 | NoValue
    | MultilineKey | UnexpectedComma | UnexpectedEquals | UnexpectedInTableKey | UnterminatedMultilineString
    | UnterminatedKey | UnterminatedTableKey | UnterminatedEscapeSequence | UnterminatedString | UnterminatedValue
    | EqualsInValue | MalformedValue | MalformedFloat | UnterminatedArrayHeader | UnterminatedHeader

  datatype LimitName = MaxDocumentSize | MaxKeyLength | MaxNestedDepth | MaxStringLength

  /**
   Why a scan failed. Offsets count from where the scan started until the decoder makes them absolute. A bad string is
   reported without being recorded in the decoder; every other failure is recorded.
   */
  datatype Fault =
    | Syntax(problem: Problem, at: nat)
    | Limit(name: LimitName, from: nat, to: nat)
    | BadKey(keyFault: KeyFault)
    | BadString(fault: StringFault)

  function At(f: Fault, off: nat): Fault {
    match f
    case Syntax(problem, at) => Syntax(problem, off + at)
    case Limit(name, from, to) => Limit(name, off + from, off + to)
    case _ => f
  }

  predicate IsQuote(c: char) {
    c == '"' || c == '\''
  }

  // ----- Comments -----

  function ScanComment(rest: string): (r: Result<nat, Fault>)
    requires rest != ""
    ensures r.Ok? ==> 1 <= r.value <= |rest|
  {
    var end := 1 + FirstStop(rest[1..], CommentBodyStop);
    if end >= |rest| || rest[end] == '\n' || StartsCrLf(rest[end..]) then Ok(end)
    else Err(Syntax(ControlInComment, end))
  }

  // ----- Quoted keys -----

  predicate HasLineBreak(s: string) {
    exists i :: 0 <= i < |s| && (s[i] == '\n' || s[i] == '\r')
  }

  function QuoteStop(quote: char): char -> bool {
    if quote == '\'' then LiteralStringStop else BasicStringStop
  }

  /** `scanQuoted`: a single-line quoted key, from its opening quote; `i` is where the scan has got to. */
  function ScanQuotedFrom(rest: string, i: nat): (r: Result<nat, Fault>)
    requires rest != "" && 1 <= i <= |rest|
    ensures r.Ok? ==> 2 <= r.value <= |rest|
    decreases |rest| - i
  {
    if i == |rest| then Err(Syntax(UnterminatedKey, 0))
    else
      var idx := FirstStop(rest[i..], QuoteStop(rest[0]));
      if HasLineBreak(rest[i..i + idx]) || i + idx >= |rest| then Err(Syntax(UnterminatedKey, 0))
      else if rest[0] == '"' && rest[i + idx] == '\\' then
        if i + idx + 1 >= |rest| then Err(Syntax(UnterminatedKey, 0))
        else ScanQuotedFrom(rest, i + idx + 2)
      else
        var end := i + idx + 1;
        var value := StringValue(rest[..end]);
        if value.Err? then Err(BadString(value.error)) else Ok(end)
  }

  function ScanQuoted(rest: string): (r: Result<nat, Fault>)
    requires rest != ""
    ensures r.Ok? ==> 2 <= r.value <= |rest|
  {
    if |rest| > 2 && rest[1] == rest[0] && rest[2] == rest[0] then
      Err(Syntax(MultilineKey, 0))
    else ScanQuotedFrom(rest, 1)
  }

  // ----- String values -----

  /** A string token: its length, and whether its body needs no escape processing. */
  datatype StringToken = StringToken(length: nat, ready: bool)

  function ByteRun(s: string, c: char): (n: nat)
    ensures n <= |s|
  {
    if s != "" && s[0] == c then 1 + ByteRun(s[1..], c) else 0
  }

  predicate OpensMultiline(rest: string, q: char) {
    |rest| >= 3 && rest[0] == q && rest[1] == q && rest[2] == q
  }

  function Checked(rest: string, end: nat, ready: bool): (r: Result<StringToken, Fault>)
    requires 1 <= end <= |rest|
    ensures r.Ok? ==> r.value.length == end
  {
    var value := StringValue(rest[..end]);
    if value.Err? then Err(BadString(value.error)) else Ok(StringToken(end, ready))
  }

  /** The closing run of a multiline string takes at most two quotes of content with it. */
  function ScanMultiline(rest: string, end: nat, ready: bool): (r: Result<StringToken, Fault>)
    requires rest != "" && IsQuote(rest[0]) && 3 <= end <= |rest|
    ensures r.Ok? ==> 1 <= r.value.length <= |rest|
    decreases |rest| - end
  {
    var stop := end + FirstStop(rest[end..], QuoteStop(rest[0]));
    if stop >= |rest| then Err(Syntax(UnterminatedMultilineString, 0))
    else if rest[0] == '"' && rest[stop] == '\\' then
      if stop + 1 >= |rest| then Err(Syntax(UnterminatedEscapeSequence, stop))
      else ScanMultiline(rest, stop + 2, false)
    else
      var run := ByteRun(rest[stop..], rest[0]);
      if run >= 3 then Checked(rest, stop + (if run > 5 then 5 else run), ready)
      else ScanMultiline(rest, stop + run, ready)
  }

  /** A single-line basic string, from its opening quote; `i` is where the scan has got to. */
  function ScanBasic(rest: string, i: nat, escapeFree: bool): (r: Result<StringToken, Fault>)
    requires rest != "" && 1 <= i <= |rest|
    ensures r.Ok? ==> 1 <= r.value.length <= |rest|
    decreases |rest| - i
  {
    var stop := i + FirstStop(rest[i..], BasicStringStrictStop);
    if stop >= |rest| || rest[stop] == '\n' || rest[stop] == '\r' then Err(Syntax(UnterminatedString, 0))
    else if rest[stop] == '\\' then
      if stop + 1 >= |rest| then Err(Syntax(UnterminatedString, 0))
      else ScanBasic(rest, stop + 2, false)
    else if rest[stop] == '"' then
      if escapeFree then Ok(StringToken(stop + 1, true)) else Checked(rest, stop + 1, false)
    else Err(BadString(ControlCharacter))
  }

  function ScanLiteral(rest: string): (r: Result<StringToken, Fault>)
    requires rest != ""
    ensures r.Ok? ==> 1 <= r.value.length <= |rest|
  {
    var n := FirstStop(rest[1..], LiteralStringStop);
    if HasLineBreak(rest[1..][..n]) || 1 + n >= |rest| then Err(Syntax(UnterminatedString, 0))
    else Checked(rest, n + 2, true)
  }

  /** `scanString`, from the opening quote. */
  function ScanString(rest: string): (r: Result<StringToken, Fault>)
    requires rest != ""
    ensures r.Ok? ==> 1 <= r.value.length <= |rest|
  {
    if OpensMultiline(rest, '"') || OpensMultiline(rest, '\'') then ScanMultiline(rest, 3, true)
    else if rest[0] == '"' then ScanBasic(rest, 1, true)
    else ScanLiteral(rest)
  }

  // ----- Keys -----

  predicate SpaceByte(c: char) {
    c == ' ' || c == '\t' || c == '\n' || c == '\r'
  }

  function TrimLeft(s: string, trimmed: char -> bool): (t: string)
    ensures |t| <= |s| && (t != "" ==> !trimmed(t[0]))
  {
    if s != "" && trimmed(s[0]) then TrimLeft(s[1..], trimmed) else s
  }

  function TrimRight(s: string, trimmed: char -> bool): (t: string)
    ensures |t| <= |s| && t == s[..|t|] && (t != "" ==> !trimmed(t[|t| - 1]))
    ensures forall i :: |t| <= i < |s| ==> trimmed(s[i])
  {
    if s != "" && trimmed(s[|s| - 1]) then TrimRight(s[..|s| - 1], trimmed) else s
  }

  function TrimSpace(s: string): string {
    TrimRight(TrimLeft(s, SpaceByte), SpaceByte)
  }

  /** Where the quote at the front of a key segment closes; past the end when it does not. */
  function QuoteClose(s: string, end: nat): (n: nat)
    requires s != ""
    decreases |s| - end
  {
    if end >= |s| then end
    else if s[end] == '\\' && s[0] == '"' then QuoteClose(s, end + 2)
    else if s[end] == s[0] then end
    else QuoteClose(s, end + 1)
  }

  predicate SegmentEnd(c: char) {
    c == '.' || c == ' ' || c == '\t'
  }

  /** A key segment and what follows it. */
  datatype SegmentAnd = SegmentAnd(segment: string, rest: string)

  function FirstSegment(raw: string): (r: Result<SegmentAnd, KeyFault>)
    requires raw != ""
    ensures r.Ok? ==> |r.value.rest| < |raw|
  {
    if IsQuote(raw[0]) then
      var end := QuoteClose(raw, 1);
      if end >= |raw| then Err(UnterminatedQuotedKey)
      else
        match StringValue(raw[..end + 1])
        case Err(f) => Err(BadQuotedKey(f))
        case Ok(v) => Ok(SegmentAnd(v, raw[end + 1..]))
    else
      var end := FirstStop(raw, SegmentEnd);
      if end == 0 then Err(EmptySegment)
      else if !BareKey(raw[..end]) then Err(UnexpectedInKey)
      else Ok(SegmentAnd(raw[..end], raw[end..]))
  }

  function Segments(raw: string): (r: Result<Path, KeyFault>)
    ensures r.Ok? && TrimLeft(raw, Blank) != "" ==> r.value != []
    decreases |raw|
  {
    var trimmed := TrimLeft(raw, Blank);
    if trimmed == "" then Ok([])
    else
      var first :- FirstSegment(trimmed);
      var rest := TrimLeft(first.rest, Blank);
      if rest == "" then Ok([first.segment])
      else if rest[0] != '.' then Err(UnexpectedInKey)
      else if TrimLeft(rest[1..], Blank) == "" then Err(EmptySegment)
      else
        var more :- Segments(rest[1..]);
        Ok([first.segment] + more)
  }

  /** `parseDottedKey`. */
  function ParseDottedKey(raw: string): (r: Result<Path, KeyFault>)
    ensures r.Ok? ==> r.value != []
  {
    var trimmed := TrimSpace(raw);
    var path :- Segments(trimmed);
    if path == [] then Err(EmptyKey) else Ok(path)
  }

  /** `keyPath`. */
  function KeyPathOf(raw: string): (r: Result<Path, KeyFault>)
    ensures r.Ok? ==> r.value != []
  {
    if BareKey(raw) then Ok([raw]) else ParseDottedKey(raw)
  }

  /** What both key scans ask of a key: it is bare, or it parses as a dotted key. */
  predicate KeyParses(key: string) {
    BareKey(key) || ParseDottedKey(key).Ok?
  }

  /** A key that parses starts with a quote or a bare-key byte. */
  lemma KeyStart(key: string)
    requires key != "" && !Blank(key[0]) && KeyParses(key)
    ensures IsQuote(key[0]) || BareKeyByte(key[0]) || SpaceByte(key[0])
  {
    if !SpaceByte(key[0]) && !BareKey(key) {
      assert TrimLeft(key, SpaceByte) == key;
      var trimmed := TrimRight(key, SpaceByte);
      assert trimmed != "" && trimmed[0] == key[0];
      assert TrimLeft(trimmed, Blank) == trimmed;
      if !IsQuote(trimmed[0]) {
        var end := FirstStop(trimmed, SegmentEnd);
        assert trimmed[..end][0] == trimmed[0];
      }
    }
  }

  // ----- Bare values -----

  datatype TokenKind =
    | TableHeader | ArrayTableHeader | Key
    | StringValueToken | IntegerToken | FloatToken | BoolToken | DatetimeToken
    | ArrayStart | ArrayEnd | InlineTableStart | InlineTableEnd | Comment

  /** Where a bare value ends; a date may be followed by one space and a time. */
  function ScanBareValueEnd(rest: string): (n: nat)
    ensures n <= |rest|
  {
    var end := FirstStop(rest, BareValueDelimiter);
    if end != 10 || end >= |rest| || rest[end] != ' ' then end
    else
      var tail := end + 1 + FirstStop(rest[end + 1..], BareValueDelimiter);
      if ParseDateTime(rest[..tail]).Some? then tail else end
  }

  predicate LooksLikeDatetime(raw: string) {
    (DateShape(raw) || TimeShape(raw)) && ParseDateTime(raw).Some?
  }

  const SPECIAL_FLOATS := {"inf", "+inf", "-inf", "nan", "+nan", "-nan"}

  /** `isFloatCandidateBytes`. */
  predicate FloatCandidate(raw: string) {
    var n := TrimSign(raw);
    && n != ""
    && !(|n| > 1 && n[0] == '0' && ('0' <= n[1] <= '9' || n[1] == '_'))
    && (forall i :: 0 <= i < |n| ==> FloatByteFits(n, i))
    && (exists i :: 0 <= i < |n| && (n[i] == '.' || n[i] == 'e' || n[i] == 'E'))
    && UnderscoresSeparate(n, 10)
  }

  predicate IsExponent(c: char) {
    c == 'e' || c == 'E'
  }

  predicate FloatByteFits(n: string, i: nat)
    requires i < |n|
  {
    var c := n[i];
    if c == '.' then
      i > 0 && i + 1 < |n| && '0' <= n[i + 1] <= '9' && '.' !in n[..i]
    else if IsExponent(c) then 'e' !in n[..i] && 'E' !in n[..i]
    else if c == '+' || c == '-' then i > 0 && IsExponent(n[i - 1])
    else c == '_' || '0' <= c <= '9'
  }

  /** Which finite float texts the standard library parses is not decided here. */
  type FloatReader = string -> bool

  /** `classifyBareValue`: the kind of a bare value, or the problem with it. */
  function Classify(raw: string, readsFloat: FloatReader): Result<TokenKind, Problem> {
    if LooksLikeDatetime(raw) then Ok(DatetimeToken)
    else if '=' in raw || ' ' in raw then Err(EqualsInValue)
    else if raw == "true" || raw == "false" then Ok(BoolToken)
    else if raw in SPECIAL_FLOATS then Ok(FloatToken)
    else if IntCandidate(raw) then
      if CapitalPrefix(raw) || IntegerLiteral(raw).None? then Err(MalformedValue) else Ok(IntegerToken)
    else if FloatCandidate(raw) then
      if readsFloat(raw) then Ok(FloatToken) else Err(MalformedFloat)
    else Err(MalformedValue)
  }

  // ----- Headers -----

  /** `scanHeaderEnd`: where the closing bracket of a header stands, from `i` on. */
  function HeaderEnd(rest: string, i: nat, isArray: bool): (r: Result<nat, Fault>)
    requires i <= |rest|
    ensures r.Ok? ==> i <= r.value && r.value + (if isArray then 2 else 1) <= |rest|
    decreases |rest| - i
  {
    var problem := if isArray then UnterminatedArrayHeader else UnterminatedHeader;
    if i == |rest| || rest[i] == '\n' || rest[i] == '\r' then Err(Syntax(problem, i))
    else if IsQuote(rest[i]) then
      match ScanQuoted(rest[i..])
      case Err(f) => Err(At(f, i))
      case Ok(n) => HeaderEnd(rest, i + n, isArray)
    else if rest[i] == ']' && (!isArray || (i + 1 < |rest| && rest[i + 1] == ']')) then Ok(i)
    else HeaderEnd(rest, i + 1, isArray)
  }

  predicate NotBareKeyByte(c: char) {
    !BareKeyByte(c)
  }

  /** `validateHeaderKey`: the text between `i` and `end` is dotted segments. */
  function ValidateHeaderKey(rest: string, i: nat, end: nat, needSegment: bool): Result<(), Fault>
    requires i <= end <= |rest|
    decreases end - i, needSegment
  {
    if i < end && Blank(rest[i]) then ValidateHeaderKey(rest, i + 1, end, needSegment)
    else if i == end then if needSegment then Err(Syntax(NoTableKey, end)) else Ok(())
    else if !needSegment then
      if rest[i] != '.' then Err(Syntax(UnexpectedInTableKey, i))
      else ValidateHeaderKey(rest, i + 1, end, true)
    else if IsQuote(rest[i]) then
      match ScanQuoted(rest[i..])
      case Err(f) => Err(At(f, i))
      case Ok(n) =>
        if i + n > end then Err(Syntax(UnterminatedTableKey, i))
        else ValidateHeaderKey(rest, i + n, end, false)
    else
      var n := FirstStop(rest[i..end], NotBareKeyByte);
      if n == 0 then Err(Syntax(UnexpectedInTableKey, i))
      else ValidateHeaderKey(rest, i + n, end, false)
  }

  // ----- Key tokens -----

  /** A key token and where the value after its equals sign may start. */
  datatype KeyToken = KeyToken(length: nat, next: nat)

  /** Where the general key scan stops: at an equals sign, a comment, a line break or the end. */
  function KeyEnd(rest: string, i: nat): (r: Result<nat, Fault>)
    requires i <= |rest|
    ensures r.Ok? ==> i <= r.value <= |rest|
    decreases |rest| - i
  {
    if i == |rest| || rest[i] == '=' || rest[i] == '#' || rest[i] == '\n' || rest[i] == '\r' then Ok(i)
    else if IsQuote(rest[i]) then
      match ScanQuoted(rest[i..])
      case Err(f) => Err(At(f, i))
      case Ok(n) => KeyEnd(rest, i + n)
    else KeyEnd(rest, i + 1)
  }

  function CheckedKey(length: nat, spanEnd: nat, next: nat, maxKeyLength: int): (r: Result<KeyToken, Fault>)
    ensures r.Ok? ==> r.value == KeyToken(length, next)
  {
    if length > maxKeyLength then Err(Limit(MaxKeyLength, 0, spanEnd)) else Ok(KeyToken(length, next))
  }

  /** Where a simple bare key ends, when an equals sign follows it. */
  predicate BareKeyAssigned(rest: string) {
    var n := FirstStop(rest, NotBareKeyByte);
    var eq := n + LeadingBlanks(rest[n..]);
    n > 0 && eq < |rest| && rest[eq] == '='
  }

  /** `scanKeyToken`, with its shortcut for a simple bare key in front of an equals sign. */
  function ScanKey(rest: string, maxKeyLength: int): (r: Result<KeyToken, Fault>)
    requires rest != "" && !Blank(rest[0])
    ensures r.Ok? ==> 1 <= r.value.length < r.value.next <= |rest|
  {
    if BareKeyAssigned(rest) then
      var n := FirstStop(rest, NotBareKeyByte);
      CheckedKey(n, n, n + LeadingBlanks(rest[n..]) + 1, maxKeyLength)
    else
      var i :- KeyEnd(rest, 0);
      if i == 0 then Err(Syntax(NoKey, 0))
      else
        var key := TrimRight(rest[..i], Blank);
        assert Blank(rest[..i][0]) == Blank(rest[0]);
        if !KeyParses(key) then Err(BadKey(ParseDottedKey(key).error))
        else
          var checked :- CheckedKey(|key|, i, i, maxKeyLength);
          var eq := i + LeadingBlanks(rest[i..]);
          if eq >= |rest| || rest[eq] != '=' then Err(Syntax(ExpectedEquals, eq)) else Ok(KeyToken(|key|, eq + 1))
  }
}
