/**
 Integer literals: the overflow-exact digit loop, the literal classes the tokenizer accepts, and the round trip of
 decimal `int64` text.
 */
module Integers {
  import opened Results
  import opened Decimal

  const MAX_INT64: int := 0x7FFF_FFFF_FFFF_FFFF
  const MIN_INT64: int := -0x8000_0000_0000_0000

  type UInt64 = x: int | 0 <= x < 0x1_0000_0000_0000_0000

  datatype NumberFault = BadSyntax | OutOfRange

  function NumericDigit(c: char): (d: Option<nat>)
    ensures d.Some? ==> d.value < 16
  {
    if '0' <= c <= '9' then Some(c as int - '0' as int)
    else if 'a' <= c <= 'f' then Some(c as int - 'a' as int + 10)
    else if 'A' <= c <= 'F' then Some(c as int - 'A' as int + 10)
    else None
  }

  predicate DigitOf(c: char, base: nat) {
    NumericDigit(c).Some? && NumericDigit(c).value < base
  }

  /** Digits of the base and underscores. */
  predicate Numeral(raw: string, base: nat) {
    forall i :: 0 <= i < |raw| ==> raw[i] == '_' || DigitOf(raw[i], base)
  }

  predicate HasDigit(raw: string) {
    exists i :: 0 <= i < |raw| && raw[i] != '_'
  }

  /** The mathematical value of a numeral, its underscores left out. */
  function Magnitude(raw: string, base: nat): nat
    requires Numeral(raw, base)
  {
    if raw == "" then 0
    else
      var front, last := raw[..|raw| - 1], raw[|raw| - 1];
      if last == '_' then Magnitude(front, base)
      else Magnitude(front, base) * base + NumericDigit(last).value
  }

  lemma {:induction false} MagnitudeGrows(raw: string, base: nat, i: nat)
    requires Numeral(raw, base) && base >= 1 && i <= |raw|
    ensures Magnitude(raw[..i], base) <= Magnitude(raw, base)
    decreases |raw|
  {
    if i == |raw| {
      assert raw[..i] == raw;
    } else {
      var front := raw[..|raw| - 1];
      assert front[..i] == raw[..i];
      MagnitudeGrows(front, base, i);
      NoSmaller(Magnitude(front, base), base);
    }
  }

  lemma NoSmaller(m: nat, base: nat)
    requires base >= 1
    ensures m <= m * base
  {
    assert m * base == m + m * (base - 1);
  }

  lemma MagnitudeStep(raw: string, base: nat, i: nat)
    requires i < |raw| && Numeral(raw[..i], base) && (raw[i] == '_' || DigitOf(raw[i], base))
    ensures Numeral(raw[..i + 1], base)
    ensures Magnitude(raw[..i + 1], base)
         == if raw[i] == '_' then Magnitude(raw[..i], base)
            else Magnitude(raw[..i], base) * base + NumericDigit(raw[i]).value
  {
    assert raw[..i + 1][..i] == raw[..i];
  }

  /** The literal's digits as a number no larger than `limit`. */
  function UintDigits(raw: string, base: nat, limit: nat): Option<nat> {
    if Numeral(raw, base) && HasDigit(raw) && Magnitude(raw, base) <= limit then Some(Magnitude(raw, base)) else None
  }

  /** One more digit overflows exactly when the hoisted cutoff test says so. */
  lemma CutoffExact(u: nat, d: nat, base: nat, limit: nat)
    requires base >= 2 && d < base
    ensures u * base + d > limit <==> u > limit / base || (u == limit / base && d > limit % base)
  {
    var q, r := limit / base, limit % base;
    assert limit == q * base + r;
    if u > q {
      assert u * base >= (q + 1) * base;
    } else if u < q {
      assert (u + 1) * base <= q * base;
    }
  }

  /** `parseUintLiteralDigits`: the accumulator never leaves the 64-bit range. */
  method ParseUintLiteralDigits(raw: string, base: nat, limit: UInt64) returns (r: Result<UInt64, NumberFault>)
    requires base == 2 || base == 8 || base == 10 || base == 16
    ensures UintDigits(raw, base, limit) == if r.Ok? then Some(r.value) else None
    ensures r == Err(OutOfRange) ==>
      exists n :: 0 <= n <= |raw| && Numeral(raw[..n], base) && Magnitude(raw[..n], base) > limit
    ensures r == Err(BadSyntax) ==> !Numeral(raw, base) || !HasDigit(raw)
  {
    hide Magnitude;
    if |raw| == 0 {
      return Err(BadSyntax);
    }
    var cutoff, cutlim := limit / base, limit % base;
    var u: UInt64 := 0;
    var sawDigit := false;
    var i := 0;
    NoDigits(base);
    assert raw[..0] == "";
    while i < |raw|
      invariant 0 <= i <= |raw| && Numeral(raw[..i], base) && u == Magnitude(raw[..i], base) <= limit
      invariant sawDigit <==> exists j :: 0 <= j < i && raw[j] != '_'
    {
      var c := raw[i];
      if c == '_' {
        MagnitudeStep(raw, base, i);
      } else {
        if !DigitOf(c, base) {
          return Err(BadSyntax);
        }
        sawDigit := true;
        var d := NumericDigit(c).value;
        MagnitudeStep(raw, base, i);
        CutoffExact(u, d, base, limit);
        if u > cutoff || (u == cutoff && d > cutlim) {
          if Numeral(raw, base) {
            MagnitudeGrows(raw, base, i + 1);
          }
          return Err(OutOfRange);
        }
        u := u * base + d;
      }
      i := i + 1;
    }
    assert raw[..|raw|] == raw;
    return if sawDigit then Ok(u) else Err(BadSyntax);
  }

  lemma NoDigits(base: nat)
    ensures Magnitude("", base) == 0
  {
  }

  // ----- Signed literals -----

  datatype Parts = Parts(negative: bool, base: nat, digits: string)

  function BaseOf(text: string): nat {
    if |text| > 2 && text[0] == '0' then
      if text[1] == 'b' || text[1] == 'B' then 2
      else if text[1] == 'o' || text[1] == 'O' then 8
      else if text[1] == 'x' || text[1] == 'X' then 16
      else 10
    else 10
  }

  function TrimSign(raw: string): string {
    if raw != "" && (raw[0] == '+' || raw[0] == '-') then raw[1..] else raw
  }

  function PartsOf(raw: string): Parts {
    var text := TrimSign(raw);
    var base := BaseOf(text);
    Parts(raw != "" && raw[0] == '-', base, if base == 10 then text else text[2..])
  }

  function Signed(negative: bool, magnitude: int): int {
    if negative then -magnitude else magnitude
  }

  /** The value of an integer literal, when it has one in the `int64` range. */
  function IntegerLiteral(raw: string): Option<int> {
    var p := PartsOf(raw);
    match UintDigits(p.digits, p.base, if p.negative then -MIN_INT64 else MAX_INT64)
    case None => None
    case Some(u) => Some(Signed(p.negative, u))
  }

  method ParseIntegerLiteral(raw: string) returns (r: Result<int, NumberFault>)
    ensures IntegerLiteral(raw) == if r.Ok? then Some(r.value) else None
    ensures r.Ok? ==> MIN_INT64 <= r.value <= MAX_INT64
  {
    var text, negative := raw, false;
    if |text| > 0 && text[0] == '+' {
      text := text[1..];
    } else if |text| > 0 && text[0] == '-' {
      text, negative := text[1..], true;
    }
    var base := BaseOf(text);
    if base != 10 {
      text := text[2..];
    }
    var limit: UInt64 := if negative then -MIN_INT64 else MAX_INT64;
    var u :- ParseUintLiteralDigits(text, base, limit);
    return Ok(Signed(negative, u));
  }

  // ----- The literals the tokenizer takes for integers -----

  /** Every underscore stands between two digits of the class. */
  predicate UnderscoresSeparate(n: string, base: nat) {
    forall i :: 0 <= i < |n| && n[i] == '_' ==>
      0 < i && i + 1 < |n| && DigitOf(n[i - 1], base) && DigitOf(n[i + 1], base)
  }

  function PrefixBase(c: char): nat {
    if c == 'b' || c == 'B' then 2 else if c == 'o' || c == 'O' then 8 else if c == 'x' || c == 'X' then 16 else 0
  }

  /** `isIntCandidateBytes`. */
  predicate IntCandidate(raw: string) {
    var n := TrimSign(raw);
    if n == "" || (|n| >= 2 && n[0] == '0' && n[1] == '_') then false
    else if |n| > 2 && n[0] == '0' && PrefixBase(n[1]) != 0 then
      n == raw && n[2] != '_' && Numeral(n[2..], PrefixBase(n[1])) && UnderscoresSeparate(n[2..], PrefixBase(n[1]))
    else if |n| > 1 && n[0] == '0' && IsDigit(n[1]) then false
    else Numeral(n, 10) && UnderscoresSeparate(n, 10)
  }

  predicate CapitalPrefix(raw: string) {
    var n := TrimSign(raw);
    |n| > 1 && n[0] == '0' && (n[1] == 'B' || n[1] == 'O' || n[1] == 'X')
  }

  /** The mathematical value of a literal, whatever its size. */
  function LiteralValue(raw: string): int
    requires Numeral(PartsOf(raw).digits, PartsOf(raw).base)
  {
    var p := PartsOf(raw);
    Signed(p.negative, Magnitude(p.digits, p.base))
  }

  /** A candidate literal is a numeral, and parses to its exact value unless that leaves the `int64` range. */
  lemma CandidateParsesExactly(raw: string)
    requires IntCandidate(raw)
    ensures Numeral(PartsOf(raw).digits, PartsOf(raw).base)
    ensures IntegerLiteral(raw)
         == if MIN_INT64 <= LiteralValue(raw) <= MAX_INT64 then Some(LiteralValue(raw)) else None
  {
    var p := PartsOf(raw);
    assert p.digits[0] != '_';
  }

  // ----- Decimal text -----

  lemma {:induction false} DecimalMagnitude(s: string)
    requires AllDigits(s)
    ensures Numeral(s, 10) && Magnitude(s, 10) == ValueOf(s)
  {
    if s != "" {
      DecimalMagnitude(s[..|s| - 1]);
    }
  }

  lemma {:induction false} NoLeadingZero(n: nat)
    ensures n > 0 ==> OfNat(n)[0] != '0'
    ensures n == 0 ==> OfNat(n) == "0"
  {
    if n >= 10 {
      NoLeadingZero(n / 10);
    }
  }

  /** Every `int64` prints as a candidate literal that parses back to it, the least one included. */
  lemma IntegerRoundTrips(n: int)
    requires MIN_INT64 <= n <= MAX_INT64
    ensures IntCandidate(OfInt(n)) && !CapitalPrefix(OfInt(n)) && IntegerLiteral(OfInt(n)) == Some(n)
  {
    hide OfNat, Magnitude, Numeral, UnderscoresSeparate, BaseOf, AllDigits;
    var m: nat := if n < 0 then -n else n;
    var digits := OfNat(m);
    NoLeadingZero(m);
    SignOfInt(n);
    PlainDecimal(digits);
    DecimalMagnitude(digits);
    ValueOfOfNat(m);
  }

  lemma SignOfInt(n: int)
    ensures var digits := OfNat(if n < 0 then -n else n);
      TrimSign(OfInt(n)) == digits && IsDigit(digits[0])
  {
    var digits := OfNat(if n < 0 then -n else n);
    assert IsDigit(digits[0]);
    assert ("-" + digits)[1..] == digits;
  }

  lemma PlainDecimal(digits: string)
    requires digits != "" && AllDigits(digits) && (|digits| > 1 ==> digits[0] != '0')
    ensures BaseOf(digits) == 10 && UnderscoresSeparate(digits, 10) && digits[0] != '_'
  {
    assert forall i :: 0 <= i < |digits| ==> IsDigit(digits[i]) && digits[i] != '_';
  }
}
