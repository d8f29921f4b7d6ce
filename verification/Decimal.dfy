/** Decimal numerals: digit runs, their values, and the text `strconv` prints. */
module Decimal {

  predicate IsDigit(c: char) {
    '0' <= c <= '9'
  }

  function DigitValue(c: char): nat
    requires IsDigit(c)
  {
    c as int - '0' as int
  }

  function Digit(d: nat): (c: char)
    requires d < 10
    ensures IsDigit(c) && DigitValue(c) == d
  {
    '0' + d as char
  }

  predicate AllDigits(s: string) {
    forall i :: 0 <= i < |s| ==> IsDigit(s[i])
  }

  /** The value of a digit run. */
  function ValueOf(s: string): nat
    requires AllDigits(s)
  {
    if s == "" then 0 else ValueOf(s[..|s| - 1]) * 10 + DigitValue(s[|s| - 1])
  }

  function Pow10(n: nat): (p: nat)
    ensures p > 0
  {
    if n == 0 then 1 else 10 * Pow10(n - 1)
  }

  /** `n` in exactly `width` digits, its low ones if it has more. */
  function Padded(n: nat, width: nat): (s: string)
    ensures |s| == width && AllDigits(s)
  {
    if width == 0 then "" else Padded(n / 10, width - 1) + [Digit(n % 10)]
  }

  function OfNat(n: nat): (s: string)
    ensures s != "" && AllDigits(s)
  {
    if n < 10 then [Digit(n)] else OfNat(n / 10) + [Digit(n % 10)]
  }

  function OfInt(n: int): string {
    if n < 0 then "-" + OfNat(-n) else OfNat(n)
  }

  lemma {:induction false} ValueBound(s: string)
    requires AllDigits(s)
    ensures ValueOf(s) < Pow10(|s|)
  {
    if s != "" {
      ValueBound(s[..|s| - 1]);
    }
  }

  /** A digit run is the padded form of its value. */
  lemma {:induction false} PaddedValue(s: string)
    requires AllDigits(s)
    ensures Padded(ValueOf(s), |s|) == s
  {
    if s != "" {
      var front, last := s[..|s| - 1], s[|s| - 1];
      PaddedValue(front);
      var v := ValueOf(front);
      assert (v * 10 + DigitValue(last)) / 10 == v && (v * 10 + DigitValue(last)) % 10 == DigitValue(last);
      assert s == front + [last];
    }
  }

  lemma {:induction false} ValueOfPadded(n: nat, width: nat)
    requires n < Pow10(width)
    ensures ValueOf(Padded(n, width)) == n
  {
    if width > 0 {
      ValueOfPadded(n / 10, width - 1);
      assert Padded(n, width)[..width - 1] == Padded(n / 10, width - 1);
    }
  }

  lemma {:induction false} ValueOfOfNat(n: nat)
    ensures ValueOf(OfNat(n)) == n
  {
    var s := OfNat(n);
    if n >= 10 {
      ValueOfOfNat(n / 10);
      assert s[..|s| - 1] == OfNat(n / 10);
    } else {
      assert s[..|s| - 1] == "";
    }
  }

  /** A number with a leading 1 in front of `width` digits prints as that 1 and those digits. */
  lemma {:induction false} OfNatLeadingOne(n: nat, width: nat)
    requires n < Pow10(width)
    ensures OfNat(Pow10(width) + n) == "1" + Padded(n, width)
  {
    if width > 0 {
      var m := Pow10(width) + n;
      assert m / 10 == Pow10(width - 1) + n / 10 && m % 10 == n % 10;
      OfNatLeadingOne(n / 10, width - 1);
    }
  }

  /** `n` with `zeros` zeros written after it, and `n` without its last `zeros` digits. */
  function Shifted(n: nat, zeros: nat): nat {
    if zeros == 0 then n else 10 * Shifted(n, zeros - 1)
  }

  function Dropped(n: nat, zeros: nat): nat {
    if zeros == 0 then n else Dropped(n / 10, zeros - 1)
  }

  predicate EndsInZeros(n: nat, zeros: nat) {
    zeros == 0 || (n % 10 == 0 && EndsInZeros(n / 10, zeros - 1))
  }

  lemma {:induction false} PaddedDropped(n: nat, width: nat, zeros: nat)
    ensures Padded(n, width + zeros)[..width] == Padded(Dropped(n, zeros), width)
  {
    if zeros > 0 {
      PaddedDropped(n / 10, width, zeros - 1);
      assert Padded(n, width + zeros) == Padded(n / 10, width + zeros - 1) + [Digit(n % 10)];
    } else {
      assert Padded(n, width)[..width] == Padded(n, width);
    }
  }

  lemma {:induction false} DroppedShifted(n: nat, zeros: nat)
    ensures Dropped(Shifted(n, zeros), zeros) == n && EndsInZeros(Shifted(n, zeros), zeros)
  {
    if zeros > 0 {
      DroppedShifted(n, zeros - 1);
      assert Shifted(n, zeros) / 10 == Shifted(n, zeros - 1);
    }
  }

  lemma {:induction false} ShiftedDropped(n: nat, zeros: nat)
    requires EndsInZeros(n, zeros)
    ensures Shifted(Dropped(n, zeros), zeros) == n
  {
    if zeros > 0 {
      ShiftedDropped(n / 10, zeros - 1);
    }
  }

  lemma {:induction false} ShiftedBound(n: nat, width: nat, zeros: nat)
    requires n < Pow10(width)
    ensures Shifted(n, zeros) < Pow10(width + zeros)
  {
    if zeros > 0 {
      ShiftedBound(n, width, zeros - 1);
    }
  }

  lemma {:induction false} DroppedBound(n: nat, width: nat, zeros: nat)
    requires n < Pow10(width + zeros)
    ensures Dropped(n, zeros) < Pow10(width)
  {
    if zeros > 0 {
      DroppedBound(n / 10, width, zeros - 1);
    }
  }
}
