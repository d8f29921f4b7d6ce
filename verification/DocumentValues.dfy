/** How the editor writes a string over another one. */
module DocumentValues {
  import opened Results
  import opened Utf8
  import opened StringParser
  import opened StringWriter
  import opened Lexer

  /** Whether a value can stand verbatim in a single-line literal string. */
  predicate LiteralStringSafe(s: string)
    decreases |s|
  {
    if s == "" then true
    else if s[0] as int < 0x80 then
      s[0] != '\'' && s[0] as int != 0x7f && (s[0] as int >= 0x20 || s[0] == '\t') && LiteralStringSafe(s[1..])
    else
      var d := DecodeRune(s);
      !(d.rune == RUNE_ERROR && d.size == 1) && d.rune > 0x9f && LiteralStringSafe(s[d.size..])
  }

  /** `formatStringLike`: a value that replaces a literal string stays a literal string when it can. */
  function FormatStringLike(existing: string, value: string): Result<string, WriteFault> {
    var trimmed := TrimSpace(existing);
    if |trimmed| >= 2 && trimmed[0] == '\'' && trimmed[|trimmed| - 1] == '\'' && LiteralStringSafe(value) then
      Ok("'" + value + "'")
    else Quote(value)
  }

  lemma {:induction false} HighBytesHaveNoControls(s: string, n: nat)
    requires n <= |s| && forall i :: 0 <= i < n ==> s[i] as int >= 0x80
    ensures NoControls(s, false) == NoControls(s[n..], false)
    decreases n
  {
    if n > 0 {
      HighBytesHaveNoControls(s[1..], n - 1);
      assert s[1..][n - 1..] == s[n..];
    } else {
      assert s[0..] == s;
    }
  }

  lemma {:induction false} LiteralStringSafeMeans(s: string)
    requires LiteralStringSafe(s)
    ensures NoControls(s, false) && Valid(s) && '\'' !in s
    decreases |s|
  {
    if s != "" {
      ValidStep(s);
      if s[0] as int < 0x80 {
        LiteralStringSafeMeans(s[1..]);
      } else {
        var n := DecodeRune(s).size;
        LiteralStringSafeMeans(s[n..]);
        assert s[0..n] == s[..n];
        assert forall i :: 0 <= i < n ==> s[i] == s[..n][i] && s[i] as int >= 0x80;
        HighBytesHaveNoControls(s, n);
        assert s == s[..n] + s[n..];
      }
    }
  }

  /** Whatever it replaces, a formatted string parses back to the value. */
  lemma FormatStringLikeRoundTrips(existing: string, value: string)
    ensures FormatStringLike(existing, value).Ok? <==> Valid(value)
    ensures FormatStringLike(existing, value).Ok? ==> StringValue(FormatStringLike(existing, value).value) == Ok(value)
  {
    QuoteRoundTrips(value);
    if LiteralStringSafe(value) {
      LiteralStringSafeMeans(value);
      var raw := "'" + value + "'";
      assert raw[1..|raw| - 1] == value;
      assert |value| > 0 ==> value[0] in value;
    }
  }
}
