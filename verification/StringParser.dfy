/**
 String literals: the bodies of the four forms, their escapes and forbidden control characters. `Unescape` reads one
 unit at a time; the parser's shortcuts and its builder loop are proved to agree with it.
 */
module StringParser {
  import opened Results
  import opened Bytes
  import opened Utf8
  import opened ScanKernels

  datatype StringFault =
    | Malformed
    | ControlCharacter
    | UnterminatedEscape
    | InvalidEscape
    | ShortUnicodeEscape
    | InvalidUnicodeEscape
    | EscapeOutOfRange
    | InvalidScalar

  // ----- Escapes -----

  function HexDigit(c: char): Option<nat> {
    if '0' <= c <= '9' then Some(c as int - '0' as int)
    else if 'A' <= c <= 'F' then Some(c as int - 'A' as int + 10)
    else if 'a' <= c <= 'f' then Some(c as int - 'a' as int + 10)
    else None
  }

  /** The value of a run of hexadecimal digits, after `v`. */
  function HexValue(digits: string, v: nat): Option<nat> {
    if digits == "" then Some(v)
    else
      match HexDigit(digits[0])
      case None => None
      case Some(d) => HexValue(digits[1..], v * 16 + d)
  }

  /** A stretch of the raw body and the text it stands for. */
  datatype Unit = Unit(text: string, size: nat)

  const MAX_INT32: int := 0x7FFF_FFFF

  function UnicodeUnit(raw: string, digits: nat): (r: Result<Unit, StringFault>)
    ensures r.Ok? ==> r.value.size == 2 + digits <= |raw|
  {
    if 2 + digits > |raw| then Err(ShortUnicodeEscape)
    else
      match HexValue(raw[2..2 + digits], 0)
      case None => Err(InvalidUnicodeEscape)
      case Some(v) =>
        if v > MAX_INT32 then Err(EscapeOutOfRange)
        else if !ScalarValue(v) then Err(InvalidScalar)
        else Ok(Unit(EncodeRune(v), 2 + digits))
  }

  function NamedEscape(c: char): Option<char> {
    match c
    case 'b' => Some(8 as char)
    case 't' => Some('\t')
    case 'n' => Some('\n')
    case 'f' => Some(12 as char)
    case 'r' => Some('\r')
    case 'e' => Some(0x1b as char)
    case '"' => Some('"')
    case '\\' => Some('\\')
    case _ => None
  }

  /** What a backslash at the front of `raw` introduces. */
  function EscapeUnit(raw: string): (r: Result<Unit, StringFault>)
    requires raw != ""
    ensures r.Ok? ==> 2 <= r.value.size <= |raw|
  {
    if |raw| < 2 then Err(UnterminatedEscape)
    else if NamedEscape(raw[1]).Some? then Ok(Unit([NamedEscape(raw[1]).value], 2))
    else if raw[1] == 'x' then UnicodeUnit(raw, 2)
    else if raw[1] == 'u' then UnicodeUnit(raw, 4)
    else if raw[1] == 'U' then UnicodeUnit(raw, 8)
    else Err(InvalidEscape)
  }

  predicate StartsCrLf(s: string) {
    |s| >= 2 && s[0] == '\r' && s[1] == '\n'
  }

  function LeadingBlanks(s: string): (n: nat)
    ensures n <= |s| && (forall i :: 0 <= i < n ==> Blank(s[i])) && (n < |s| ==> !Blank(s[n]))
  {
    if s != "" && Blank(s[0]) then 1 + LeadingBlanks(s[1..]) else 0
  }

  /** The length of the blanks and line endings at the front. */
  function LeadingLines(s: string): (n: nat)
    ensures n <= |s|
  {
    if s == "" then 0
    else if Blank(s[0]) || s[0] == '\n' then 1 + LeadingLines(s[1..])
    else if StartsCrLf(s) then 2 + LeadingLines(s[2..])
    else 0
  }

  /** How much a line-ending backslash elides after itself, when only blanks stand between it and the line ending. */
  function ElidedWhitespace(s: string): (r: Option<nat>)
    ensures r.Some? ==> r.value <= |s|
  {
    var j := LeadingBlanks(s);
    if j < |s| && s[j] == '\n' then Some(j + 1 + LeadingLines(s[j + 1..]))
    else if StartsCrLf(s[j..]) then Some(j + 2 + LeadingLines(s[j + 2..]))
    else None
  }

  predicate Prohibited(c: char, multiline: bool) {
    if c == '\t' || (multiline && c == '\n') then false else c as int < 0x20 || c as int == 0x7f
  }

  // ----- Basic strings, one unit at a time -----

  function BasicUnit(raw: string, multiline: bool): (r: Result<Unit, StringFault>)
    requires raw != ""
    ensures r.Ok? ==> 1 <= r.value.size <= |raw|
  {
    if raw[0] != '\\' then
      if multiline && StartsCrLf(raw) then Ok(Unit("\r\n", 2))
      else if Prohibited(raw[0], multiline) then Err(ControlCharacter)
      else Ok(Unit([raw[0]], 1))
    else if multiline && ElidedWhitespace(raw[1..]).Some? then
      Ok(Unit("", 1 + ElidedWhitespace(raw[1..]).value))
    else EscapeUnit(raw)
  }

  function Prepend(text: string, r: Result<string, StringFault>): Result<string, StringFault> {
    match r
    case Ok(s) => Ok(text + s)
    case Err(f) => Err(f)
  }

  /** The text a basic-string body stands for. */
  function Unescape(raw: string, multiline: bool): Result<string, StringFault>
    decreases |raw|
  {
    if raw == "" then Ok("")
    else
      var unit :- BasicUnit(raw, multiline);
      Prepend(unit.text, Unescape(raw[unit.size..], multiline))
  }

  lemma PrependPrepend(a: string, b: string, r: Result<string, StringFault>)
    ensures Prepend(a, Prepend(b, r)) == Prepend(a + b, r)
  {
    if r.Ok? {
      assert a + (b + r.value) == a + b + r.value;
    }
  }

  /** A run of bytes that need no handling stands for itself. */
  lemma {:induction false} PlainRun(raw: string, n: nat)
    requires n <= |raw| && forall i :: 0 <= i < n ==> !BasicStringStrictStop(raw[i])
    ensures Unescape(raw, false) == Prepend(raw[..n], Unescape(raw[n..], false))
    decreases n
  {
    if n == 0 {
      assert raw[0..] == raw;
      if Unescape(raw, false).Ok? {
        assert "" + Unescape(raw, false).value == Unescape(raw, false).value;
      }
    } else {
      assert BasicUnit(raw, false) == Ok(Unit([raw[0]], 1));
      PlainRun(raw[1..], n - 1);
      assert raw[1..][n - 1..] == raw[n..] && [raw[0]] + raw[1..][..n - 1] == raw[..n];
      PrependPrepend([raw[0]], raw[1..][..n - 1], Unescape(raw[n..], false));
    }
  }

  /** The first `i` bytes of a body have been read, and stand for `text`. */
  ghost predicate ReadTo(raw: string, multiline: bool, i: nat, text: string) {
    i <= |raw| && Unescape(raw, multiline) == Prepend(text, Unescape(raw[i..], multiline))
  }

  lemma ReadNothing(raw: string, multiline: bool)
    ensures ReadTo(raw, multiline, 0, "")
  {
    assert raw[0..] == raw;
    if Unescape(raw, multiline).Ok? {
      assert "" + Unescape(raw, multiline).value == Unescape(raw, multiline).value;
    }
  }

  lemma ReadUnit(raw: string, multiline: bool, i: nat, text: string)
    requires ReadTo(raw, multiline, i, text) && i < |raw|
    ensures match BasicUnit(raw[i..], multiline)
            case Ok(unit) => ReadTo(raw, multiline, i + unit.size, text + unit.text)
            case Err(f) => Unescape(raw, multiline) == Err(f)
  {
    hide BasicUnit;
    var unit := BasicUnit(raw[i..], multiline);
    if unit.Ok? {
      assert raw[i..][unit.value.size..] == raw[i + unit.value.size..];
      PrependPrepend(text, unit.value.text, Unescape(raw[i + unit.value.size..], multiline));
    }
  }

  lemma ReadRun(raw: string, i: nat, n: nat, text: string)
    requires ReadTo(raw, false, i, text) && i + n <= |raw|
    requires forall j :: 0 <= j < n ==> !BasicStringStrictStop(raw[i..][j])
    ensures ReadTo(raw, false, i + n, text + raw[i..i + n])
  {
    hide Unescape;
    PlainRun(raw[i..], n);
    assert raw[i..][n..] == raw[i + n..] && raw[i..][..n] == raw[i..i + n];
    PrependPrepend(text, raw[i..i + n], Unescape(raw[i + n..], false));
  }

  lemma ReadAll(raw: string, multiline: bool, text: string)
    requires ReadTo(raw, multiline, |raw|, text)
    ensures Unescape(raw, multiline) == Ok(text)
  {
    assert raw[|raw|..] == "" && text + "" == text;
  }

  /** `scanBasicStringBody`: with `keep` it builds the text, without it only checks the body. */
  method ScanBasicStringBody(raw: string, multiline: bool, keep: bool) returns (r: Result<string, StringFault>)
    ensures r == match Unescape(raw, multiline)
                 case Ok(text) => Ok(if keep then text else "")
                 case Err(f) => Err(f)
  {
    hide BasicUnit, Unescape, ReadTo;
    var b := "";
    ghost var text := "";
    var i := 0;
    ReadNothing(raw, multiline);
    while i < |raw|
      invariant 0 <= i <= |raw| && ReadTo(raw, multiline, i, text)
      invariant b == if keep then text else ""
    {
      if !multiline {
        var n := FirstStop(raw[i..], BasicStringStrictStop);
        if n > 0 {
          ReadRun(raw, i, n, text);
          if keep {
            b := b + raw[i..i + n];
          }
          i, text := i + n, text + raw[i..i + n];
          if i >= |raw| {
            break;
          }
        }
      }
      var unit := BasicUnit(raw[i..], multiline);
      ReadUnit(raw, multiline, i, text);
      if unit.Err? {
        return Err(unit.error);
      }
      if keep {
        b := b + unit.value.text;
      }
      i, text := i + unit.value.size, text + unit.value.text;
    }
    ReadAll(raw, multiline, text);
    return Ok(b);
  }

  // ----- Literal strings, and the shortcut for bodies without escapes -----

  /** Whether a body holds no forbidden control character; a multiline body may hold CRLF. */
  predicate NoControls(raw: string, multiline: bool)
    decreases |raw|
  {
    raw == ""
    || (if multiline && StartsCrLf(raw) then NoControls(raw[2..], multiline)
        else !Prohibited(raw[0], multiline) && NoControls(raw[1..], multiline))
  }

  method ValidateStringControls(raw: string, multiline: bool) returns (r: Result<(), StringFault>)
    ensures r == if NoControls(raw, multiline) then Ok(()) else Err(ControlCharacter)
  {
    var i := 0;
    assert raw[0..] == raw;
    while i < |raw|
      invariant 0 <= i <= |raw| && NoControls(raw, multiline) == NoControls(raw[i..], multiline)
    {
      var c := raw[i];
      assert raw[i..][1..] == raw[i + 1..];
      if multiline && c == '\r' && i + 1 < |raw| && raw[i + 1] == '\n' {
        assert raw[i..][2..] == raw[i + 2..];
        i := i + 2;
      } else if Prohibited(c, multiline) {
        return Err(ControlCharacter);
      } else {
        i := i + 1;
      }
    }
    return Ok(());
  }

  /** A body without backslashes stands for itself, unless it holds a forbidden control character. */
  lemma {:induction false} UnescapePlain(raw: string, multiline: bool)
    requires '\\' !in raw
    ensures Unescape(raw, multiline) == if NoControls(raw, multiline) then Ok(raw) else Err(ControlCharacter)
    decreases |raw|
  {
    if raw != "" {
      assert raw[0] in raw;
      if multiline && StartsCrLf(raw) {
        UnescapePlain(raw[2..], multiline);
        assert raw == "\r\n" + raw[2..];
      } else {
        UnescapePlain(raw[1..], multiline);
        assert raw == [raw[0]] + raw[1..];
      }
    }
  }

  /** `parseBasicStringBody`, shortcuts included. */
  method ParseBasicStringBody(raw: string, multiline: bool) returns (r: Result<string, StringFault>)
    ensures r == Unescape(raw, multiline)
  {
    if !multiline && FirstStop(raw, BasicStringStrictStop) == |raw| {
      PlainRun(raw, |raw|);
      assert raw[..|raw|] == raw && raw[|raw|..] == "" && raw + "" == raw;
      return Ok(raw);
    }
    if multiline && '\\' !in raw {
      UnescapePlain(raw, multiline);
      var checked := ValidateStringControls(raw, true);
      return if checked.Err? then Err(checked.error) else Ok(raw);
    }
    r := ScanBasicStringBody(raw, multiline, true);
  }

  // ----- The four forms -----

  datatype StringForm = Literal | MultilineLiteral | Basic | MultilineBasic

  predicate TripleDelimited(raw: string, q: char) {
    |raw| >= 6 && raw[0] == q && raw[1] == q && raw[2] == q
    && raw[|raw| - 1] == q && raw[|raw| - 2] == q && raw[|raw| - 3] == q
  }

  predicate PairDelimited(raw: string, q: char) {
    |raw| >= 2 && raw[0] == q && raw[|raw| - 1] == q
  }

  function TrimInitialNewline(raw: string): string {
    if StartsCrLf(raw) then raw[2..]
    else if |raw| >= 1 && raw[0] == '\n' then raw[1..]
    else raw
  }

  datatype Body = Body(text: string, form: StringForm)

  function BodyOf(raw: string): Result<Body, StringFault> {
    if TripleDelimited(raw, '\'') then Ok(Body(TrimInitialNewline(raw[3..|raw| - 3]), MultilineLiteral))
    else if TripleDelimited(raw, '"') then Ok(Body(TrimInitialNewline(raw[3..|raw| - 3]), MultilineBasic))
    else if PairDelimited(raw, '\'') then Ok(Body(raw[1..|raw| - 1], Literal))
    else if PairDelimited(raw, '"') then Ok(Body(raw[1..|raw| - 1], Basic))
    else Err(Malformed)
  }

  /** The value of a string token. */
  function StringValue(raw: string): Result<string, StringFault> {
    var body :- BodyOf(raw);
    match body.form
    case Literal => if NoControls(body.text, false) then Ok(body.text) else Err(ControlCharacter)
    case MultilineLiteral => if NoControls(body.text, true) then Ok(body.text) else Err(ControlCharacter)
    case Basic => Unescape(body.text, false)
    case MultilineBasic => Unescape(body.text, true)
  }

  method ParseStringValue(raw: string) returns (r: Result<string, StringFault>)
    ensures r == StringValue(raw)
  {
    var body :- BodyOf(raw);
    match body.form {
      case Literal =>
        var _ :- ValidateStringControls(body.text, false);
        r := Ok(body.text);
      case MultilineLiteral =>
        var _ :- ValidateStringControls(body.text, true);
        r := Ok(body.text);
      case Basic => r := ParseBasicStringBody(body.text, false);
      case MultilineBasic => r := ParseBasicStringBody(body.text, true);
    }
  }

  /** The tokenizer's check of a string accepts exactly the strings that have a value. */
  method ValidateStringValue(raw: string) returns (r: Result<(), StringFault>)
    ensures r.Ok? <==> StringValue(raw).Ok?
    ensures r.Err? ==> StringValue(raw) == Err(r.error)
  {
    var body :- BodyOf(raw);
    match body.form {
      case Literal => r := ValidateStringControls(body.text, false);
      case MultilineLiteral => r := ValidateStringControls(body.text, true);
      case Basic =>
        var _ :- ScanBasicStringBody(body.text, false, false);
        r := Ok(());
      case MultilineBasic =>
        var _ :- ScanBasicStringBody(body.text, true, false);
        r := Ok(());
    }
  }

  /** `readyStringBody`: the body of a token the tokenizer marked as needing no escape processing. */
  function ReadyStringBody(raw: string): string {
    if |raw| < 2 then ""
    else
      var q := raw[0];
      if |raw| >= 6 && raw[1] == q && raw[2] == q && (q == '"' || q == '\'') then
        TrimInitialNewline(raw[3..|raw| - 3])
      else raw[1..|raw| - 1]
  }
}
