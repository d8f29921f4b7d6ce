/**
 UTF-8: the octet sequences of section 4 of RFC 3629, the two validators, and the encoding and decoding of scalar
 values that Go's `utf8` package performs for the string code.
 */
module Utf8 {
  import opened Bytes
  import opened ScanKernels

  // ----- The syntax of section 4 of RFC 3629 -----

  predicate Tail(b: char) {
    0x80 <= b as int <= 0xBF
  }

  predicate Utf8Char(s: string) {
    || (|s| == 1 && s[0] as int <= 0x7F)
    || (|s| == 2 && 0xC2 <= s[0] as int <= 0xDF && Tail(s[1]))
    || (|s| == 3 && Tail(s[2])
        && (|| (s[0] as int == 0xE0 && 0xA0 <= s[1] as int <= 0xBF)
            || (0xE1 <= s[0] as int <= 0xEC && Tail(s[1]))
            || (s[0] as int == 0xED && 0x80 <= s[1] as int <= 0x9F)
            || (0xEE <= s[0] as int <= 0xEF && Tail(s[1]))))
    || (|s| == 4 && Tail(s[2]) && Tail(s[3])
        && (|| (s[0] as int == 0xF0 && 0x90 <= s[1] as int <= 0xBF)
            || (0xF1 <= s[0] as int <= 0xF3 && Tail(s[1]))
            || (s[0] as int == 0xF4 && 0x80 <= s[1] as int <= 0x8F)))
  }

  function Concat(parts: seq<string>): string {
    if parts == [] then "" else parts[0] + Concat(parts[1..])
  }

  ghost predicate Characters(parts: seq<string>) {
    forall i :: 0 <= i < |parts| ==> Utf8Char(parts[i])
  }

  /** `s` is a sequence of UTF-8 characters. */
  ghost predicate WellFormed(s: string) {
    exists parts :: Characters(parts) && Concat(parts) == s
  }

  /** Some character starts at the front of `s`. */
  ghost predicate StartsCharacter(s: string) {
    exists n :: 1 <= n <= |s| && Utf8Char(s[..n])
  }

  // ----- The length of the character at the front -----

  predicate Continuation(b: char) {
    b as int >= 0x80 && b as int <= 0xBF
  }

  /** `validateUTF8SequenceSize`: the length of the character at `i`, or 0. */
  function SequenceSize(s: string, i: nat): (n: nat)
    requires i < |s|
    ensures n != 0 ==> i + n <= |s| && Utf8Char(s[i..i + n])
  {
    var b0 := s[i] as int;
    if b0 < 0x80 then 1
    else if b0 < 0xC2 then 0
    else if b0 < 0xE0 then
      if i + 1 < |s| && Continuation(s[i + 1]) then 2 else 0
    else if b0 < 0xF0 then
      if i + 2 >= |s| then 0
      else
        var b1 := s[i + 1] as int;
        if !Continuation(s[i + 1]) || !Continuation(s[i + 2]) then 0
        else if b0 == 0xE0 && b1 < 0xA0 then 0
        else if b0 == 0xED && b1 >= 0xA0 then 0
        else 3
    else if b0 < 0xF5 then
      if i + 3 >= |s| then 0
      else
        var b1 := s[i + 1] as int;
        if !Continuation(s[i + 1]) || !Continuation(s[i + 2]) || !Continuation(s[i + 3]) then 0
        else if b0 == 0xF0 && b1 < 0x90 then 0
        else if b0 == 0xF4 && b1 >= 0x90 then 0
        else 4
    else 0
  }

  /** At most one prefix of a text is a character, and `SequenceSize` finds it. */
  lemma SequenceSizeFinds(s: string, i: nat, n: nat)
    requires i < i + n <= |s| && Utf8Char(s[i..i + n])
    ensures SequenceSize(s, i) == n
  {
    var c := s[i..i + n];
    assert forall k :: 0 <= k < n ==> c[k] == s[i + k];
  }

  lemma SequenceSizeShifts(s: string, i: nat, j: nat)
    requires i <= j < |s|
    ensures SequenceSize(s[i..], j - i) == SequenceSize(s, j)
  {
  }

  /** Where the first ill-formed sequence starts, or the length. */
  function FirstIllFormed(s: string, i: nat): (r: nat)
    requires i <= |s|
    ensures i <= r <= |s|
    decreases |s| - i
  {
    if i == |s| then |s|
    else
      var n := SequenceSize(s, i);
      if n == 0 then i else FirstIllFormed(s, i + n)
  }

  predicate Valid(s: string) {
    FirstIllFormed(s, 0) == |s|
  }

  // ----- What the answer means -----

  lemma {:induction false} ConcatAppend(a: seq<string>, b: seq<string>)
    ensures Concat(a + b) == Concat(a) + Concat(b)
  {
    if a == [] {
      assert a + b == b;
    } else {
      assert (a + b)[0] == a[0] && (a + b)[1..] == a[1..] + b;
      ConcatAppend(a[1..], b);
    }
  }

  /** The text before the answer is well formed, and no character starts at the answer. */
  lemma {:induction false} FirstIllFormedMeans(s: string, i: nat) returns (parts: seq<string>)
    requires i <= |s|
    ensures Characters(parts) && Concat(parts) == s[i..FirstIllFormed(s, i)]
    ensures FirstIllFormed(s, i) < |s| ==> !StartsCharacter(s[FirstIllFormed(s, i)..])
    decreases |s| - i
  {
    parts := [];
    if i < |s| {
      var n := SequenceSize(s, i);
      if n == 0 {
        forall k | 1 <= k <= |s| - i && Utf8Char(s[i..][..k]) ensures false {
          assert s[i..][..k] == s[i..i + k];
          SequenceSizeFinds(s, i, k);
        }
      } else {
        var rest := FirstIllFormedMeans(s, i + n);
        parts := [s[i..i + n]] + rest;
        var end := FirstIllFormed(s, i);
        assert parts[1..] == rest && s[i..end] == s[i..i + n] + s[i + n..end];
      }
    }
  }

  /** Well-formed text is consumed whole, wherever it stands. */
  lemma {:induction false} CharactersConsumed(s: string, i: nat, parts: seq<string>)
    requires i <= |s| && Characters(parts) && Concat(parts) <= s[i..]
    ensures FirstIllFormed(s, i) == FirstIllFormed(s, i + |Concat(parts)|)
    decreases |parts|
  {
    hide SequenceSize;
    if parts != [] {
      var c, rest := parts[0], Concat(parts[1..]);
      assert Concat(parts) == c + rest;
      assert Concat(parts)[..|c|] == c && s[i..][..|c|] == c;
      assert s[i..i + |c|] == c;
      assert Utf8Char(c);
      SequenceSizeFinds(s, i, |c|);
      assert Concat(parts)[|c|..] == rest && s[i..][|c|..] == s[i + |c|..];
      CharactersConsumed(s, i + |c|, parts[1..]);
    }
  }

  lemma ValidIffWellFormed(s: string)
    ensures Valid(s) <==> WellFormed(s)
  {
    if Valid(s) {
      var parts := FirstIllFormedMeans(s, 0);
      assert s[0..|s|] == s;
    }
    if WellFormed(s) {
      var parts :| Characters(parts) && Concat(parts) == s;
      CharactersConsumed(s, 0, parts);
    }
  }

  // ----- The validators -----

  method ValidateScalar(s: string) returns (r: nat)
    ensures r == FirstIllFormed(s, 0)
  {
    var i := 0;
    while i < |s|
      invariant 0 <= i <= |s| && FirstIllFormed(s, 0) == FirstIllFormed(s, i)
    {
      var size := SequenceSize(s, i);
      if size == 0 {
        return i;
      }
      i := i + size;
    }
    return |s|;
  }

  predicate Ascii(b: char) {
    b as int < 0x80
  }

  lemma {:induction false} AsciiSkipped(s: string, i: nat, j: nat)
    requires i <= j <= |s| && forall k :: i <= k < j ==> Ascii(s[k])
    ensures FirstIllFormed(s, i) == FirstIllFormed(s, j)
    decreases j - i
  {
    if i < j {
      AsciiSkipped(s, i + 1, j);
    }
  }

  lemma {:induction false} FirstIllFormedShifts(s: string, i: nat, j: nat)
    requires i <= j <= |s|
    ensures i + FirstIllFormed(s[i..], j - i) == FirstIllFormed(s, j)
    decreases |s| - j
  {
    if j < |s| {
      SequenceSizeShifts(s, i, j);
      var n := SequenceSize(s, j);
      if n != 0 {
        FirstIllFormedShifts(s, i, j + n);
      }
    }
  }

  /** `validateUTF8SSE2`: an ASCII prefix, then the scalar validator on what is left. */
  method ValidateAsciiThenScalar(s: string) returns (r: nat)
    ensures r == FirstIllFormed(s, 0)
  {
    var i := ScanScalar(s, High);
    AsciiSkipped(s, 0, i);
    if i == |s| {
      return |s|;
    }
    var rest := ValidateScalar(s[i..]);
    FirstIllFormedShifts(s, i, i);
    return i + rest;
  }

  /** `validateUTF8SWAR`: ASCII words are skipped, then characters are decoded one by one. */
  method ValidateSwar(s: seq<Byte>) returns (r: nat)
    ensures r == FirstIllFormed(s, 0)
  {
    hide Load, FirstIllFormed, DecodeRune;
    var i := 0;
    while i + 8 <= |s|
      invariant 0 <= i <= |s| && FirstIllFormed(s, 0) == FirstIllFormed(s, i)
    {
      var m := Load(s[i..i + 8]) & SWAR_HIGHS;
      if m != 0 {
        break;
      }
      WordIsAscii(s, i);
      AsciiSkipped(s, i, i + 8);
      i := i + 8;
    }
    while i < |s|
      invariant 0 <= i <= |s| && FirstIllFormed(s, 0) == FirstIllFormed(s, i)
    {
      if s[i] as int < 0x80 {
        AsciiSkipped(s, i, i + 1);
        i := i + 1;
      } else {
        var rune, size := DecodeRune(s[i..]).rune, DecodeRune(s[i..]).size;
        RuneSkipped(s, i);
        if rune == RUNE_ERROR && size == 1 {
          return i;
        }
        i := i + size;
      }
    }
    return |s|;
  }

  /** `utf8.DecodeRune` on a byte of a longer sequence reports it ill-formed, or spans the character there. */
  lemma RuneSkipped(s: string, i: nat)
    requires i < |s| && !Ascii(s[i])
    ensures var d := DecodeRune(s[i..]);
      if d.rune == RUNE_ERROR && d.size == 1 then FirstIllFormed(s, i) == i
      else 0 < d.size <= |s| - i && FirstIllFormed(s, i) == FirstIllFormed(s, i + d.size)
  {
    SequenceSizeShifts(s, i, i);
  }

  lemma WordIsAscii(s: seq<Byte>, i: nat)
    requires i + 8 <= |s| && Load(s[i..i + 8]) & SWAR_HIGHS == 0
    ensures forall k :: i <= k < i + 8 ==> Ascii(s[k])
  {
    hide Load, Exact;
    var word := s[i..i + 8];
    ExactHigh(word);
    ExactFindsFirst(Load(word) & SWAR_HIGHS, word, High);
    forall k | i <= k < i + 8 ensures Ascii(s[k]) {
      assert s[k] == word[k - i];
    }
  }

  // ----- Scalar values -----

  const RUNE_ERROR: int := 0xFFFD

  predicate ScalarValue(r: int) {
    0 <= r <= 0x10FFFF && !(0xD800 <= r <= 0xDFFF)
  }

  datatype Decoded = Decoded(rune: int, size: nat)

  function ValueOf(c: string): int
    requires Utf8Char(c)
  {
    if |c| == 1 then c[0] as int
    else if |c| == 2 then (c[0] as int - 0xC0) * 0x40 + (c[1] as int - 0x80)
    else if |c| == 3 then
      (c[0] as int - 0xE0) * 0x1000 + (c[1] as int - 0x80) * 0x40 + (c[2] as int - 0x80)
    else
      (c[0] as int - 0xF0) * 0x40000 + (c[1] as int - 0x80) * 0x1000 + (c[2] as int - 0x80) * 0x40
      + (c[3] as int - 0x80)
  }

  /** `utf8.DecodeRune`: the character at the front, or `RUNE_ERROR` of size 1. */
  function DecodeRune(s: string): Decoded
    requires s != ""
  {
    var n := SequenceSize(s, 0);
    if n == 0 then Decoded(RUNE_ERROR, 1) else Decoded(ValueOf(s[0..n]), n)
  }

  /** `utf8.AppendRune` for a scalar value. */
  function EncodeRune(r: int): string
    requires ScalarValue(r)
  {
    if r <= 0x7F then [r as char]
    else if r <= 0x7FF then [(0xC0 + r / 0x40) as char, (0x80 + r % 0x40) as char]
    else if r <= 0xFFFF then
      [(0xE0 + r / 0x1000) as char, (0x80 + r / 0x40 % 0x40) as char, (0x80 + r % 0x40) as char]
    else
      [(0xF0 + r / 0x40000) as char, (0x80 + r / 0x1000 % 0x40) as char, (0x80 + r / 0x40 % 0x40) as char,
       (0x80 + r % 0x40) as char]
  }

  /** Six-bit digits, from the least significant. */
  lemma SixBits(q: nat, d: nat)
    requires d < 0x40
    ensures (q * 0x40 + d) / 0x40 == q && (q * 0x40 + d) % 0x40 == d
  {
  }

  lemma NestedQuotients(r: nat)
    ensures r / 0x1000 == r / 0x40 / 0x40 && r / 0x40000 == r / 0x40 / 0x40 / 0x40
  {
  }

  lemma ThreeDigits(a: nat, b: nat, c: nat)
    requires b < 0x40 && c < 0x40
    ensures var r := a * 0x1000 + b * 0x40 + c;
      r / 0x1000 == a && r / 0x40 % 0x40 == b && r % 0x40 == c && r / 0x40 == a * 0x40 + b
  {
    var r := a * 0x1000 + b * 0x40 + c;
    assert r == (a * 0x40 + b) * 0x40 + c;
    SixBits(a * 0x40 + b, c);
    SixBits(a, b);
    NestedQuotients(r);
  }

  lemma FourDigits(a: nat, b: nat, c: nat, d: nat)
    requires b < 0x40 && c < 0x40 && d < 0x40
    ensures var r := a * 0x40000 + b * 0x1000 + c * 0x40 + d;
      r / 0x40000 == a && r / 0x1000 % 0x40 == b && r / 0x40 % 0x40 == c && r % 0x40 == d
  {
    var r := a * 0x40000 + b * 0x1000 + c * 0x40 + d;
    var top := a * 0x40 + b;
    assert r == top * 0x1000 + c * 0x40 + d;
    ThreeDigits(top, c, d);
    SixBits(a, b);
    NestedQuotients(r);
  }

  lemma CharacterIsEncoded(c: string)
    requires Utf8Char(c)
    ensures ScalarValue(ValueOf(c)) && EncodeRune(ValueOf(c)) == c
  {
    if |c| == 2 {
      SixBits(c[0] as int - 0xC0, c[1] as int - 0x80);
    } else if |c| == 3 {
      ThreeDigits(c[0] as int - 0xE0, c[1] as int - 0x80, c[2] as int - 0x80);
    } else if |c| == 4 {
      FourDigits(c[0] as int - 0xF0, c[1] as int - 0x80, c[2] as int - 0x80, c[3] as int - 0x80);
    }
  }
}
