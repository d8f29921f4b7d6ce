/**
 Writing strings as basic strings: `appendBasicString` and the shortcuts of `writeQuotedString`, and the proof that
 the parser reads back what they write.
 */
module StringWriter {
  import opened Results
  import opened Bytes
  import opened Utf8
  import opened ScanKernels
  import opened StringParser

  /** A Go string that is not UTF-8 has no TOML representation. */
  datatype WriteFault = InvalidUtf8

  function HexUpper(d: nat): char
    requires d < 16
  {
    "0123456789ABCDEF"[d]
  }

  /** The four-digit escape of a code point below U+0100. */
  function UnicodeEscape(r: nat): string
    requires r < 0x100
  {
    "\\u00" + [HexUpper(r / 16), HexUpper(r % 16)]
  }

  function ControlEscape(c: char): string
    requires c as int < 0x100
  {
    if c as int == 8 then "\\b"
    else if c == '\t' then "\\t"
    else if c == '\n' then "\\n"
    else if c as int == 12 then "\\f"
    else if c == '\r' then "\\r"
    else UnicodeEscape(c as int)
  }

  predicate Printable(c: char) {
    0x20 <= c as int < 0x7f
  }

  predicate NeedsBackslash(c: char) {
    c == '"' || c == '\\'
  }

  /** The escaped form of the first character of `s`, and how many bytes of `s` that is. */
  function EscapedUnit(s: string): (r: Result<Unit, WriteFault>)
    requires s != ""
    ensures r.Ok? ==> 1 <= r.value.size <= |s|
  {
    var c := s[0];
    if Printable(c) then Ok(Unit(if NeedsBackslash(c) then ['\\', c] else [c], 1))
    else if c as int < 0x80 then Ok(Unit(ControlEscape(c), 1))
    else
      var d := DecodeRune(s);
      if d.rune == RUNE_ERROR && d.size == 1 then Err(InvalidUtf8)
      else if 0 <= d.rune <= 0x9f then Ok(Unit(UnicodeEscape(d.rune), d.size))
      else Ok(Unit(s[..d.size], d.size))
  }

  function PrependText(text: string, r: Result<string, WriteFault>): Result<string, WriteFault> {
    match r
    case Ok(s) => Ok(text + s)
    case Err(f) => Err(f)
  }

  function Escaped(s: string): Result<string, WriteFault>
    decreases |s|
  {
    if s == "" then Ok("")
    else
      var unit :- EscapedUnit(s);
      PrependText(unit.text, Escaped(s[unit.size..]))
  }

  /** `s` as a basic string. */
  function Quote(s: string): Result<string, WriteFault> {
    var e :- Escaped(s);
    Ok("\"" + e + "\"")
  }

  // ----- Exactly the UTF-8 strings can be written -----

  lemma ValidStep(s: string)
    requires s != ""
    ensures Valid(s) <==> SequenceSize(s, 0) != 0 && Valid(s[SequenceSize(s, 0)..])
  {
    var n := SequenceSize(s, 0);
    if n != 0 {
      FirstIllFormedShifts(s, n, n);
    }
  }

  lemma {:induction false} EscapedIffValid(s: string)
    ensures Escaped(s).Ok? <==> Valid(s)
    decreases |s|
  {
    if s != "" {
      ValidStep(s);
      UnitSize(s);
      if EscapedUnit(s).Ok? {
        EscapedIffValid(s[EscapedUnit(s).value.size..]);
      }
    }
  }

  /** A unit is one character. */
  lemma UnitSize(s: string)
    requires s != ""
    ensures EscapedUnit(s).Ok? <==> SequenceSize(s, 0) != 0
    ensures EscapedUnit(s).Ok? ==> EscapedUnit(s).value.size == SequenceSize(s, 0)
  {
  }

  // ----- Reading a unit back -----

  lemma HexUpperReads(d: nat)
    requires d < 16
    ensures HexDigit(HexUpper(d)) == Some(d) && !BasicStringStrictStop(HexUpper(d))
  {
  }

  lemma HexValueTwoZeros(a: char, b: char)
    requires HexDigit(a).Some? && HexDigit(b).Some?
    ensures HexValue(['0', '0', a, b], 0) == Some(HexDigit(a).value * 16 + HexDigit(b).value)
  {
    var digits := ['0', '0', a, b];
    assert digits[1..] == ['0', a, b] && digits[1..][1..] == [a, b] && [a, b][1..] == [b] && [b][1..] == "";
    assert HexValue([b], HexDigit(a).value) == Some(HexDigit(a).value * 16 + HexDigit(b).value);
    assert HexValue([a, b], 0) == HexValue([b], HexDigit(a).value);
    assert HexValue(['0', a, b], 0) == HexValue([a, b], 0);
  }

  lemma UnicodeEscapeReads(r: nat, rest: string)
    requires r < 0x100
    ensures BasicUnit(UnicodeEscape(r) + rest, false) == Ok(Unit(EncodeRune(r), 6))
  {
    var raw := UnicodeEscape(r) + rest;
    HexUpperReads(r / 16);
    HexUpperReads(r % 16);
    HexValueTwoZeros(HexUpper(r / 16), HexUpper(r % 16));
    assert raw[2..6] == ['0', '0', HexUpper(r / 16), HexUpper(r % 16)];
  }

  /** The parser reads an escaped unit back as the bytes it stands for, whatever follows it. */
  lemma UnitReadsBack(s: string, rest: string)
    requires s != "" && EscapedUnit(s).Ok?
    ensures var u := EscapedUnit(s).value;
      Unescape(u.text + rest, false) == Prepend(s[..u.size], Unescape(rest, false))
  {
    hide Unescape, DecodeRune;
    var u := EscapedUnit(s).value;
    var raw, c := u.text + rest, s[0];
    if Printable(c) || c as int < 0x80 {
      assert s[..1] == [c];
      assert BasicUnit(raw, false) == Ok(Unit([c], |u.text|)) by {
        if !Printable(c) && ControlEscape(c) == UnicodeEscape(c as int) {
          UnicodeEscapeReads(c as int, rest);
        }
      }
      UnescapeUnit(raw, Unit([c], |u.text|));
      assert raw[|u.text|..] == rest;
    } else {
      HighUnitReadsBack(s, rest);
    }
  }

  lemma UnescapeUnit(raw: string, unit: Unit)
    requires raw != "" && BasicUnit(raw, false) == Ok(unit)
    ensures Unescape(raw, false) == Prepend(unit.text, Unescape(raw[unit.size..], false))
  {
    hide BasicUnit;
  }

  lemma HighUnitReadsBack(s: string, rest: string)
    requires s != "" && s[0] as int >= 0x80 && EscapedUnit(s).Ok?
    ensures var u := EscapedUnit(s).value;
      Unescape(u.text + rest, false) == Prepend(s[..u.size], Unescape(rest, false))
  {
    hide Unescape, BasicUnit;
    var u := EscapedUnit(s).value;
    var raw, d := u.text + rest, DecodeRune(s);
    assert s[0..d.size] == s[..d.size];
    CharacterIsEncoded(s[..d.size]);
    assert raw[|u.text|..] == rest && raw[..|u.text|] == u.text;
    if d.rune <= 0x9f {
      UnicodeEscapeReads(d.rune, rest);
      UnescapeUnit(raw, Unit(EncodeRune(d.rune), 6));
    } else {
      assert forall i :: 0 <= i < |u.text| ==> raw[i] == s[i] && s[i] as int >= 0x80;
      PlainRun(raw, |u.text|);
    }
  }

  /** The parser reads back what the writer escaped. */
  lemma {:induction false} EscapedReadsBack(s: string)
    requires Escaped(s).Ok?
    ensures Unescape(Escaped(s).value, false) == Ok(s)
    decreases |s|
  {
    if s != "" {
      var u := EscapedUnit(s).value;
      UnitReadsBack(s, Escaped(s[u.size..]).value);
      EscapedReadsBack(s[u.size..]);
      assert s[..u.size] + s[u.size..] == s;
    }
  }

  lemma EscapedHidesQuote(s: string)
    requires s != "" && Escaped(s).Ok?
    ensures Escaped(s).value != "" && Escaped(s).value[0] != '"'
  {
  }

  /** Writing a string and parsing it gives the string back, for every string that is UTF-8, and only those. */
  lemma QuoteRoundTrips(s: string)
    ensures Quote(s).Ok? <==> Valid(s)
    ensures Quote(s).Ok? ==> StringValue(Quote(s).value) == Ok(s)
  {
    EscapedIffValid(s);
    if Quote(s).Ok? {
      var e := Escaped(s).value;
      var raw := Quote(s).value;
      assert raw[1..|raw| - 1] == e;
      if s != "" {
        EscapedHidesQuote(s);
      }
      EscapedReadsBack(s);
    }
  }

  // ----- The writer's loops -----

  /** The first `i` bytes have been written as `text`. */
  ghost predicate Written(s: string, i: nat, text: string) {
    i <= |s| && Escaped(s) == PrependText(text, Escaped(s[i..]))
  }

  lemma WrittenNothing(s: string)
    ensures Written(s, 0, "")
  {
    assert s[0..] == s;
    if Escaped(s).Ok? {
      assert "" + Escaped(s).value == Escaped(s).value;
    }
  }

  lemma WrittenUnit(s: string, i: nat, text: string)
    requires Written(s, i, text) && i < |s|
    ensures match EscapedUnit(s[i..])
            case Ok(u) => Written(s, i + u.size, text + u.text)
            case Err(f) => Escaped(s) == Err(f)
  {
    hide EscapedUnit;
    var unit := EscapedUnit(s[i..]);
    if unit.Ok? {
      var rest := Escaped(s[i + unit.value.size..]);
      assert s[i..][unit.value.size..] == s[i + unit.value.size..];
      if rest.Ok? {
        assert text + (unit.value.text + rest.value) == text + unit.value.text + rest.value;
      }
    }
  }

  lemma WrittenAll(s: string, text: string)
    requires Written(s, |s|, text)
    ensures Escaped(s) == Ok(text)
  {
    assert s[|s|..] == "" && text + "" == text;
  }

  /** `appendBasicString`: bytes that stand for themselves are copied in chunks that start at `start`. */
  method AppendBasicString(b: string, s: string) returns (r: Result<string, WriteFault>)
    ensures r == match Quote(s)
                 case Ok(text) => Ok(b + text)
                 case Err(f) => Err(f)
  {
    hide Escaped, Written, DecodeRune, ControlEscape;
    var out := "";
    var start, i := 0, 0;
    WrittenNothing(s);
    assert out + s[start..i] == "";
    while i < |s|
      invariant 0 <= start <= i <= |s| && Written(s, i, out + s[start..i])
    {
      var c := s[i];
      ghost var text := out + s[start..i];
      WrittenUnit(s, i, text);
      if Printable(c) {
        if NeedsBackslash(c) {
          out := out + s[start..i] + ['\\', c];
          i := i + 1;
          start := i;
          assert out + s[start..i] == text + ['\\', c];
        } else {
          i := i + 1;
          assert out + s[start..i] == text + [c];
        }
      } else if c as int < 0x80 {
        out := out + s[start..i] + ControlEscape(c);
        i := i + 1;
        start := i;
        assert out + s[start..i] == text + ControlEscape(c);
      } else {
        var d := DecodeRune(s[i..]);
        if d.rune == RUNE_ERROR && d.size == 1 {
          return Err(InvalidUtf8);
        }
        ghost var unit := EscapedUnit(s[i..]).value;
        if 0 <= d.rune <= 0x9f {
          out := out + s[start..i] + UnicodeEscape(d.rune);
          i := i + d.size;
          start := i;
        } else {
          i := i + d.size;
        }
        assert out + s[start..i] == text + unit.text;
      }
    }
    assert s[start..i] == s[start..];
    WrittenAll(s, out + s[start..]);
    return Ok(b + ("\"" + (out + s[start..]) + "\""));
  }

  /** What a look at a string says of how to quote it. */
  datatype Route = Verbatim | Fallback | AsciiFrom(first: nat)

  predicate PlainAscii(s: string) {
    forall i :: 0 <= i < |s| ==> Printable(s[i])
  }

  /** `asciiQuoteEscapeIndex`. */
  method QuoteRoute(s: string) returns (route: Route)
    ensures route.Verbatim? ==> PlainAscii(s) && forall i :: 0 <= i < |s| ==> !NeedsBackslash(s[i])
    ensures route.AsciiFrom? ==>
      PlainAscii(s) && route.first <= |s| && forall i :: 0 <= i < route.first ==> !NeedsBackslash(s[i])
  {
    if |s| == 0 {
      return Verbatim;
    }
    if 0x7f as char in s {
      return Fallback;
    }
    route := Verbatim;
    var off := 0;
    while off < |s|
      invariant 0 <= off <= |s| && !route.Fallback?
      invariant forall i :: 0 <= i < off ==> Printable(s[i])
      invariant route.Verbatim? ==> forall i :: 0 <= i < off ==> !NeedsBackslash(s[i])
      invariant route.AsciiFrom? ==> route.first <= |s| && forall i :: 0 <= i < route.first ==> !NeedsBackslash(s[i])
    {
      var rest := s[off..];
      var n := FirstStop(rest, BasicStringEscapeStop);
      forall i | off <= i < off + n ensures Printable(s[i]) && !NeedsBackslash(s[i]) {
        assert s[i] == rest[i - off] && s[i] in s;
      }
      if n == |rest| {
        break;
      }
      var idx := off + n;
      assert s[idx] in s && rest[n] == s[idx];
      if s[idx] as int < 0x20 || s[idx] as int >= 0x80 {
        return Fallback;
      }
      if route.Verbatim? {
        route := AsciiFrom(idx);
      }
      off := idx + 1;
    }
  }

  lemma {:induction false} AsciiWritten(s: string, i: nat, j: nat, text: string)
    requires Written(s, i, text) && i <= j <= |s| && PlainAscii(s)
    requires forall k :: i <= k < j ==> !NeedsBackslash(s[k])
    ensures Written(s, j, text + s[i..j])
    decreases j - i
  {
    hide Written;
    if i == j {
      assert text + s[i..j] == text;
    } else {
      WrittenUnit(s, i, text);
      AsciiWritten(s, i + 1, j, text + [s[i]]);
      assert text + [s[i]] + s[i + 1..j] == text + s[i..j];
    }
  }

  /** `writeQuotedASCIIString`: from the first byte that needs it, quotes and backslashes get a backslash. */
  method QuoteAscii(s: string, first: nat) returns (text: string)
    requires PlainAscii(s) && first <= |s| && forall i :: 0 <= i < first ==> !NeedsBackslash(s[i])
    ensures Quote(s) == Ok(text)
  {
    hide Escaped, Written;
    var out := "";
    var start, i := 0, first;
    WrittenNothing(s);
    AsciiWritten(s, 0, first, "");
    assert out + s[start..i] == "" + s[0..first];
    while i < |s|
      invariant 0 <= start <= i <= |s| && Written(s, i, out + s[start..i])
    {
      ghost var before := out + s[start..i];
      WrittenUnit(s, i, before);
      if NeedsBackslash(s[i]) {
        out := out + s[start..i] + ['\\', s[i]];
        start := i + 1;
        assert out + s[start..i + 1] == before + ['\\', s[i]];
      } else {
        assert out + s[start..i + 1] == before + [s[i]];
      }
      i := i + 1;
    }
    assert s[start..i] == s[start..];
    WrittenAll(s, out + s[start..]);
    return "\"" + (out + s[start..]) + "\"";
  }

  /** `writeQuotedString`: whichever route is taken, the same bytes are written. */
  method WriteQuotedString(s: string) returns (r: Result<string, WriteFault>)
    ensures r == Quote(s)
  {
    var route := QuoteRoute(s);
    match route {
      case Verbatim =>
        VerbatimQuote(s);
        r := Ok("\"" + s + "\"");
      case Fallback =>
        r := AppendBasicString("", s);
        assert Quote(s).Ok? ==> "" + Quote(s).value == Quote(s).value;
      case AsciiFrom(first) =>
        var text := QuoteAscii(s, first);
        r := Ok(text);
    }
  }

  lemma VerbatimQuote(s: string)
    requires PlainAscii(s) && forall i :: 0 <= i < |s| ==> !NeedsBackslash(s[i])
    ensures Quote(s) == Ok("\"" + s + "\"")
  {
    WrittenNothing(s);
    AsciiWritten(s, 0, |s|, "");
    assert "" + s[0..|s|] == s;
    WrittenAll(s, s);
  }

  // ----- Keys and literal strings -----

  predicate BareKey(s: string) {
    s != "" && forall i :: 0 <= i < |s| ==> BareKeyByte(s[i])
  }

  function FormatKey(key: string): Result<string, WriteFault> {
    if key == "" then Ok("\"\"")
    else if BareKey(key) then Ok(key)
    else Quote(key)
  }

  /** Keys joined with dots, as in a header. */
  function FormatPath(path: seq<string>): Result<string, WriteFault> {
    if path == [] then Ok("")
    else
      var key :- FormatKey(path[0]);
      if |path| == 1 then Ok(key)
      else
        var rest :- FormatPath(path[1..]);
        Ok(key + "." + rest)
  }
}
