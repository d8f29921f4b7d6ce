/**
 TOML date-times: the four forms, their shape dispatch, and the text the local types print. The text layout follows
 section 5.6 of RFC 3339, relaxed as TOML 1.1.0 does: seconds may be left out, and the local forms have no offset.
 */
module DateTimes {
  import opened Results
  import opened Decimal

  datatype LocalDate = LocalDate(year: int, month: int, day: int)

  /** A clock reading, with how many fractional digits it was written with. */
  datatype LocalTime = LocalTime(hour: int, minute: int, second: int, nanosecond: int, hasSecond: bool, nanoDigits: int)

  datatype LocalDateTime = LocalDateTime(date: LocalDate, time: LocalTime)

  /** An offset in seconds east of UTC. */
  datatype OffsetDateTime = OffsetDateTime(date: LocalDate, time: LocalTime, offset: int)

  datatype DateTime =
    | Offset(offsetDateTime: OffsetDateTime)
    | DateAndTime(localDateTime: LocalDateTime)
    | Date(localDate: LocalDate)
    | Time(localTime: LocalTime)

  // ----- Ranges -----

  predicate LeapYear(year: int) {
    year % 4 == 0 && (year % 100 != 0 || year % 400 == 0)
  }

  function DaysInMonth(year: int, month: int): nat {
    if month in {1, 3, 5, 7, 8, 10, 12} then 31
    else if month in {4, 6, 9, 11} then 30
    else if month == 2 then if LeapYear(year) then 29 else 28
    else 0
  }

  predicate ValidDate(d: LocalDate) {
    0 <= d.year <= 9999 && 1 <= d.month <= 12 && 1 <= d.day <= DaysInMonth(d.year, d.month)
  }

  predicate ValidClock(t: LocalTime) {
    0 <= t.hour <= 23 && 0 <= t.minute <= 59 && 0 <= t.second <= 59
    && 0 <= t.nanosecond < 1_000_000_000 && 0 <= t.nanoDigits <= 9
    && (t.nanoDigits == 0 ==> t.nanosecond == 0)
  }

  // ----- Parsing -----

  function FixedDigits(raw: string): Option<nat> {
    if AllDigits(raw) then Some(ValueOf(raw)) else None
  }

  method ParseFixedDigits(raw: string) returns (r: Option<nat>)
    ensures r == FixedDigits(raw)
  {
    var v := 0;
    var i := 0;
    while i < |raw|
      invariant 0 <= i <= |raw| && AllDigits(raw[..i]) && v == ValueOf(raw[..i])
    {
      if !IsDigit(raw[i]) {
        return None;
      }
      assert raw[..i + 1][..i] == raw[..i];
      v := v * 10 + DigitValue(raw[i]);
      i := i + 1;
    }
    assert raw[..|raw|] == raw;
    return Some(v);
  }

  /** A date is ten bytes. */
  function DatePrefix(raw: string): Option<LocalDate> {
    if |raw| < 10 || raw[4] != '-' || raw[7] != '-' then None
    else
      var year, month, day := FixedDigits(raw[0..4]), FixedDigits(raw[5..7]), FixedDigits(raw[8..10]);
      if year.None? || month.None? || day.None? then None
      else
        var d := LocalDate(year.value, month.value, day.value);
        if ValidDate(d) then Some(d) else None
  }

  /** How many digits stand at the front. */
  function DigitRun(raw: string): (n: nat)
    ensures n <= |raw| && AllDigits(raw[..n]) && (n < |raw| ==> !IsDigit(raw[n]))
  {
    if raw == "" || !IsDigit(raw[0]) then 0 else 1 + DigitRun(raw[1..])
  }

  datatype Subseconds = Subseconds(second: nat, nanosecond: nat, nanoDigits: nat, next: nat)

  /** `parseClockSubseconds`: the optional seconds and fraction from `off` on. */
  function ClockSubseconds(raw: string, off: nat): (r: Option<Subseconds>)
    requires off <= |raw|
    ensures r.Some? ==> off <= r.value.next <= |raw|
  {
    if off == |raw| || raw[off] != ':' then Some(Subseconds(0, 0, 0, off))
    else if |raw| - (off + 1) < 2 || FixedDigits(raw[off + 1..off + 3]).None? then None
    else
      var second, dot := FixedDigits(raw[off + 1..off + 3]).value, off + 3;
      if dot >= |raw| || raw[dot] != '.' then Some(Subseconds(second, 0, 0, dot))
      else
        var n := DigitRun(raw[dot + 1..]);
        if n == 0 || n > 9 then None
        else
          var fraction := raw[dot + 1..][..n];
          Some(Subseconds(second, Shifted(ValueOf(fraction), 9 - n), n, dot + 1 + n))
  }

  datatype Clock = Clock(time: LocalTime, next: nat)

  function TimePrefix(raw: string): (r: Option<Clock>)
    ensures r.Some? ==> 5 <= r.value.next <= |raw|
  {
    if |raw| < 5 || raw[2] != ':' then None
    else
      var hour, minute, sub := FixedDigits(raw[0..2]), FixedDigits(raw[3..5]), ClockSubseconds(raw, 5);
      if hour.None? || minute.None? || sub.None? then None
      else
        var t := LocalTime(hour.value, minute.value, sub.value.second, sub.value.nanosecond, sub.value.next > 5,
                           sub.value.nanoDigits);
        if ValidClock(t) then Some(Clock(t, sub.value.next)) else None
  }

  predicate Separator(c: char) {
    c == 'T' || c == 't' || c == ' '
  }

  function ParseZone(raw: string): Option<int> {
    if raw == "Z" || raw == "z" then Some(0)
    else if |raw| != 6 || (raw[0] != '+' && raw[0] != '-') || raw[3] != ':' then None
    else
      var hour, minute := FixedDigits(raw[1..3]), FixedDigits(raw[4..6]);
      if hour.None? || minute.None? || hour.value > 23 || minute.value > 59 then None
      else
        var seconds := hour.value * 3600 + minute.value * 60;
        Some(if raw[0] == '-' then -seconds else seconds)
  }

  function ParseOffsetDateTime(raw: string): Option<OffsetDateTime> {
    if DatePrefix(raw).None? || |raw| <= 10 || !Separator(raw[10]) then None
    else
      var clock := TimePrefix(raw[11..]);
      if clock.None? || 11 + clock.value.next >= |raw| || ParseZone(raw[11 + clock.value.next..]).None? then None
      else
        Some(OffsetDateTime(DatePrefix(raw).value, clock.value.time, ParseZone(raw[11 + clock.value.next..]).value))
  }

  function ParseLocalDateTime(raw: string): Option<LocalDateTime> {
    if DatePrefix(raw).None? || |raw| <= 10 || !Separator(raw[10]) then None
    else
      var clock := TimePrefix(raw[11..]);
      if clock.None? || 11 + clock.value.next != |raw| then None
      else Some(LocalDateTime(DatePrefix(raw).value, clock.value.time))
  }

  function ParseLocalDate(raw: string): Option<LocalDate> {
    if |raw| != 10 then None else DatePrefix(raw)
  }

  function ParseLocalTime(raw: string): Option<LocalTime> {
    var clock := TimePrefix(raw);
    if clock.None? || clock.value.next != |raw| then None else Some(clock.value.time)
  }

  // ----- The shape dispatch -----

  predicate DateShape(raw: string) {
    |raw| >= 10 && AllDigits(raw[0..4]) && raw[4] == '-' && AllDigits(raw[5..7]) && raw[7] == '-'
    && AllDigits(raw[8..10])
  }

  predicate TimeShape(raw: string) {
    |raw| >= 5 && AllDigits(raw[0..2]) && raw[2] == ':' && AllDigits(raw[3..5])
  }

  predicate OffsetMark(c: char) {
    c == 'Z' || c == 'z' || c == '+' || c == '-'
  }

  predicate HasOffsetSuffix(time: string) {
    exists i :: 5 <= i < |time| && OffsetMark(time[i])
  }

  /** `parseDateTimeValue`: the shape picks one parser, and only that one is tried. */
  function ParseDateTime(raw: string): Option<DateTime> {
    if DateShape(raw) then
      if |raw| == 10 then
        var d := ParseLocalDate(raw); if d.Some? then Some(Date(d.value)) else None
      else if Separator(raw[10]) then
        if HasOffsetSuffix(raw[11..]) then
          var o := ParseOffsetDateTime(raw); if o.Some? then Some(Offset(o.value)) else None
        else
          var dt := ParseLocalDateTime(raw); if dt.Some? then Some(DateAndTime(dt.value)) else None
      else None
    else if TimeShape(raw) then
      var t := ParseLocalTime(raw); if t.Some? then Some(Time(t.value)) else None
    else None
  }

  lemma DatePrefixHasShape(raw: string)
    requires DatePrefix(raw).Some?
    ensures DateShape(raw)
  {
  }

  /** A clock text holds no offset mark. */
  lemma ClockHasNoOffsetMark(raw: string)
    requires TimePrefix(raw).Some?
    ensures forall i :: 5 <= i < TimePrefix(raw).value.next ==> !OffsetMark(raw[i])
  {
    var next := ClockSubseconds(raw, 5).value.next;
    if next > 5 {
      assert AllDigits(raw[6..8]);
      assert raw[6..8][0] == raw[6] && raw[6..8][1] == raw[7];
      if next > 8 {
        var fraction := raw[9..][..DigitRun(raw[9..])];
        assert forall i :: 9 <= i < next ==> raw[i] == fraction[i - 9];
      }
    }
  }

  /** The dispatch accepts what exactly one of the four parsers accepts, with that parser's value, and nothing else. */
  lemma DispatchIsUnion(raw: string)
    ensures ParseOffsetDateTime(raw).Some? ==> ParseDateTime(raw) == Some(Offset(ParseOffsetDateTime(raw).value))
    ensures ParseLocalDateTime(raw).Some? ==> ParseDateTime(raw) == Some(DateAndTime(ParseLocalDateTime(raw).value))
    ensures ParseLocalDate(raw).Some? ==> ParseDateTime(raw) == Some(Date(ParseLocalDate(raw).value))
    ensures ParseLocalTime(raw).Some? ==> ParseDateTime(raw) == Some(Time(ParseLocalTime(raw).value))
    ensures ParseDateTime(raw).Some? ==>
      || ParseOffsetDateTime(raw).Some? || ParseLocalDateTime(raw).Some?
      || ParseLocalDate(raw).Some? || ParseLocalTime(raw).Some?
  {
    if DatePrefix(raw).Some? {
      DatePrefixHasShape(raw);
      if |raw| > 10 && Separator(raw[10]) && TimePrefix(raw[11..]).Some? {
        var time := raw[11..];
        var next := TimePrefix(time).value.next;
        ClockHasNoOffsetMark(time);
        if 11 + next < |raw| && ParseZone(raw[11 + next..]).Some? {
          assert raw[11 + next..][0] == time[next];
          assert OffsetMark(time[next]);
        }
      }
    }
    if TimePrefix(raw).Some? {
      assert TimeShape(raw);
      assert |raw| >= 10 ==> raw[0..4][2] == ':';
    }
  }

  // ----- Printing -----

  /** `appendPaddedInt`; the fields of a valid date or clock fit the width. */
  function PaddedInt(n: int, width: nat): string {
    if 0 <= n < Pow10(width) then Padded(n, width) else OfInt(n)
  }

  function DateText(d: LocalDate): string {
    PaddedInt(d.year, 4) + "-" + PaddedInt(d.month, 2) + "-" + PaddedInt(d.day, 2)
  }

  function FractionText(t: LocalTime): string
    requires ValidClock(t)
  {
    NanosHaveTenDigits(t.nanosecond);
    "." + OfNat(t.nanosecond + 1_000_000_000)[1..1 + t.nanoDigits]
  }

  function TimeText(t: LocalTime): string
    requires ValidClock(t)
  {
    PaddedInt(t.hour, 2) + ":" + PaddedInt(t.minute, 2)
    + (if t.hasSecond then ":" + PaddedInt(t.second, 2) else "")
    + (if t.hasSecond && t.nanoDigits > 0 then FractionText(t) else "")
  }

  function MarshalDate(d: LocalDate): Option<string> {
    if ValidDate(d) then Some(DateText(d)) else None
  }

  function MarshalTime(t: LocalTime): Option<string> {
    if ValidClock(t) then Some(TimeText(t)) else None
  }

  function MarshalDateTime(dt: LocalDateTime): Option<string> {
    if ValidDate(dt.date) && ValidClock(dt.time) then Some(DateText(dt.date) + "T" + TimeText(dt.time)) else None
  }

  lemma Billion()
    ensures Pow10(2) == 100 && Pow10(4) == 10_000 && Pow10(9) == 1_000_000_000
  {
    assert Pow10(4) == 100 * Pow10(2);
    assert Pow10(9) == 100_000 * Pow10(4) by {
      assert Pow10(9) == 100 * Pow10(7) && Pow10(7) == 100 * Pow10(5);
    }
  }

  lemma NanosHaveTenDigits(nanos: int)
    requires 0 <= nanos < 1_000_000_000
    ensures OfNat(nanos + 1_000_000_000) == "1" + Padded(nanos, 9)
  {
    Billion();
    OfNatLeadingOne(nanos, 9);
  }

  lemma FieldReprints(s: string)
    requires AllDigits(s)
    ensures PaddedInt(ValueOf(s), |s|) == s
  {
    ValueBound(s);
    PaddedValue(s);
  }

  lemma FractionReprints(t: LocalTime, fraction: string)
    requires ValidClock(t) && AllDigits(fraction) && |fraction| <= 9
    requires t.nanoDigits == |fraction| && t.nanosecond == Shifted(ValueOf(fraction), 9 - |fraction|)
    ensures FractionText(t) == "." + fraction
  {
    var n := |fraction|;
    NanosHaveTenDigits(t.nanosecond);
    PaddedDropped(t.nanosecond, n, 9 - n);
    DroppedShifted(ValueOf(fraction), 9 - n);
    PaddedValue(fraction);
    assert OfNat(t.nanosecond + 1_000_000_000)[1..1 + n] == Padded(t.nanosecond, 9)[..n];
  }

  /** A date prefix is reprinted byte for byte. */
  lemma DateReprints(raw: string)
    requires DatePrefix(raw).Some?
    ensures DateText(DatePrefix(raw).value) == raw[..10]
  {
    FieldReprints(raw[0..4]);
    FieldReprints(raw[5..7]);
    FieldReprints(raw[8..10]);
    assert raw[..10] == raw[0..4] + "-" + raw[5..7] + "-" + raw[8..10];
  }

  /** A clock prefix is reprinted byte for byte, fraction digits and all. */
  lemma ClockReprints(raw: string)
    requires TimePrefix(raw).Some?
    ensures TimeText(TimePrefix(raw).value.time) == raw[..TimePrefix(raw).value.next]
  {
    var t, next := TimePrefix(raw).value.time, TimePrefix(raw).value.next;
    FieldReprints(raw[0..2]);
    FieldReprints(raw[3..5]);
    assert raw[..5] == raw[0..2] + ":" + raw[3..5];
    if next > 5 {
      FieldReprints(raw[6..8]);
      assert raw[..8] == raw[..5] + ":" + raw[6..8];
      if next > 8 {
        var n := DigitRun(raw[9..]);
        FractionReprints(t, raw[9..][..n]);
        assert raw[..next] == raw[..8] + "." + raw[9..][..n];
      }
    }
  }

  /** Every accepted local text is reprinted: unchanged, or with the separator made `T`. */
  lemma LocalTextsReprint(raw: string)
    ensures ParseLocalDate(raw).Some? ==> MarshalDate(ParseLocalDate(raw).value) == Some(raw)
    ensures ParseLocalTime(raw).Some? ==> MarshalTime(ParseLocalTime(raw).value) == Some(raw)
    ensures ParseLocalDateTime(raw).Some? ==>
      MarshalDateTime(ParseLocalDateTime(raw).value) == Some(raw[..10] + "T" + raw[11..])
  {
    if DatePrefix(raw).Some? {
      DateReprints(raw);
      if |raw| == 10 {
        assert raw[..10] == raw;
      } else if TimePrefix(raw[11..]).Some? {
        ClockReprints(raw[11..]);
        assert raw[11..][..|raw| - 11] == raw[11..];
      }
    }
    if TimePrefix(raw).Some? {
      ClockReprints(raw);
      assert raw[..|raw|] == raw;
    }
  }

  /** Reparsing the reprinted text gives the value that was printed. */
  lemma NormalizedSeparatorReparses(raw: string)
    requires ParseLocalDateTime(raw).Some?
    ensures ParseLocalDateTime(raw[..10] + "T" + raw[11..]) == ParseLocalDateTime(raw)
  {
    var t := raw[..10] + "T" + raw[11..];
    assert t[0..4] == raw[0..4] && t[5..7] == raw[5..7] && t[8..10] == raw[8..10] && t[11..] == raw[11..];
  }

  // ----- Which clock readings survive printing -----

  /** What is left of a reading once it is printed: no digits beyond the stated precision, no unprinted seconds. */
  function Printed(t: LocalTime): LocalTime
    requires ValidClock(t)
  {
    if !t.hasSecond then LocalTime(t.hour, t.minute, 0, 0, false, 0)
    else t.(nanosecond := Shifted(Dropped(t.nanosecond, 9 - t.nanoDigits), 9 - t.nanoDigits))
  }

  lemma FieldReparses(n: int)
    requires 0 <= n < 100
    ensures |PaddedInt(n, 2)| == 2 && FixedDigits(PaddedInt(n, 2)) == Some(n)
  {
    Billion();
    ValueOfPadded(n, 2);
  }

  lemma {:induction false} DigitRunAll(s: string)
    requires AllDigits(s)
    ensures DigitRun(s) == |s|
  {
    if s != "" {
      DigitRunAll(s[1..]);
    }
  }

  lemma FractionReparses(t: LocalTime)
    requires ValidClock(t)
    ensures |FractionText(t)| == 1 + t.nanoDigits && FractionText(t)[0] == '.' && AllDigits(FractionText(t)[1..])
    ensures ValueOf(FractionText(t)[1..]) == Dropped(t.nanosecond, 9 - t.nanoDigits)
  {
    var n := t.nanoDigits;
    Billion();
    NanosHaveTenDigits(t.nanosecond);
    PaddedDropped(t.nanosecond, n, 9 - n);
    assert FractionText(t)[1..] == Padded(t.nanosecond, 9)[..n];
    DroppedBound(t.nanosecond, n, 9 - n);
    ValueOfPadded(Dropped(t.nanosecond, 9 - n), n);
  }

  lemma SubsecondsReparse(t: LocalTime)
    requires ValidClock(t) && t.hasSecond
    ensures ClockSubseconds(TimeText(t), 5)
         == Some(Subseconds(t.second, Printed(t).nanosecond, t.nanoDigits, |TimeText(t)|))
  {
    var text := TimeText(t);
    FieldReparses(t.hour);
    FieldReparses(t.minute);
    FieldReparses(t.second);
    assert text[6..8] == PaddedInt(t.second, 2);
    if t.nanoDigits > 0 {
      FractionReparses(t);
      assert text[8..] == FractionText(t);
      var fraction := FractionText(t)[1..];
      assert text[9..] == fraction && fraction[..|fraction|] == fraction;
      DigitRunAll(fraction);
    } else {
      DropZero(9);
    }
  }

  lemma {:induction false} DropZero(zeros: nat)
    ensures Dropped(0, zeros) == 0 && Shifted(0, zeros) == 0
  {
    if zeros > 0 {
      DropZero(zeros - 1);
    }
  }

  lemma PrintedBound(t: LocalTime)
    requires ValidClock(t)
    ensures ValidClock(Printed(t))
  {
    var n := t.nanoDigits;
    Billion();
    DroppedBound(t.nanosecond, n, 9 - n);
    ShiftedBound(Dropped(t.nanosecond, 9 - n), n, 9 - n);
    DropZero(9);
  }

  lemma PrintedReparses(t: LocalTime)
    requires ValidClock(t)
    ensures ParseLocalTime(TimeText(t)) == Some(Printed(t))
  {
    hide ClockSubseconds;
    var text := TimeText(t);
    FieldReparses(t.hour);
    FieldReparses(t.minute);
    assert text[0..2] == PaddedInt(t.hour, 2) && text[3..5] == PaddedInt(t.minute, 2) && text[2] == ':';
    PrintedBound(t);
    if t.hasSecond {
      SubsecondsReparse(t);
    } else {
      NoSubseconds(text);
    }
  }

  lemma YearReparses(year: int)
    requires 0 <= year <= 9999
    ensures |PaddedInt(year, 4)| == 4 && FixedDigits(PaddedInt(year, 4)) == Some(year)
  {
    Billion();
    ValueOfPadded(year, 4);
  }

  /** Every valid date is printed in ten bytes and parsed back, whatever follows. */
  lemma DateReparses(d: LocalDate, rest: string)
    requires ValidDate(d)
    ensures |DateText(d)| == 10 && DatePrefix(DateText(d) + rest) == Some(d) && ParseLocalDate(DateText(d)) == Some(d)
  {
    var text := DateText(d);
    YearReparses(d.year);
    FieldReparses(d.month);
    FieldReparses(d.day);
    assert text[0..4] == PaddedInt(d.year, 4) && text[5..7] == PaddedInt(d.month, 2) && text[8..10] == PaddedInt(d.day, 2);
    assert text[4] == '-' && text[7] == '-' && |text| == 10;
    assert (text + rest)[0..4] == text[0..4] && (text + rest)[5..7] == text[5..7] && (text + rest)[8..10] == text[8..10];
  }

  /** What `MarshalText` writes for a date and time parses back to that date and to what was printed of the time. */
  lemma DateTimeReparses(dt: LocalDateTime)
    requires MarshalDateTime(dt).Some?
    ensures ParseLocalDateTime(MarshalDateTime(dt).value) == Some(LocalDateTime(dt.date, Printed(dt.time)))
    ensures ParseLocalDateTime(MarshalDateTime(dt).value) == Some(dt) <==> ParseLocalTime(TimeText(dt.time)) == Some(dt.time)
  {
    hide TimePrefix, DatePrefix, DateText, TimeText, Printed, ParseLocalDate;
    var date, time := DateText(dt.date), TimeText(dt.time);
    var text := date + "T" + time;
    DateReparses(dt.date, "T" + time);
    assert date + ("T" + time) == text;
    PrintedReparses(dt.time);
    assert text[11..] == time && text[10] == 'T';
  }

  lemma NoSubseconds(text: string)
    requires |text| == 5
    ensures ClockSubseconds(text, 5) == Some(Subseconds(0, 0, 0, 5))
  {
  }

  /** Exactly the readings whose nanoseconds fit their stated precision, and that print every part they have, survive. */
  lemma TimeRoundTripsIff(t: LocalTime)
    requires ValidClock(t)
    ensures ParseLocalTime(TimeText(t)) == Some(t) <==>
      EndsInZeros(t.nanosecond, 9 - t.nanoDigits) && (t.hasSecond || (t.second == 0 && t.nanoDigits == 0))
  {
    PrintedReparses(t);
    if EndsInZeros(t.nanosecond, 9 - t.nanoDigits) {
      ShiftedDropped(t.nanosecond, 9 - t.nanoDigits);
    }
    DroppedShifted(Dropped(t.nanosecond, 9 - t.nanoDigits), 9 - t.nanoDigits);
    if t.nanosecond == 0 {
      ZeroEndsInZeros(9 - t.nanoDigits);
    }
  }

  lemma {:induction false} ZeroEndsInZeros(zeros: nat)
    ensures EndsInZeros(0, zeros)
  {
    if zeros > 0 {
      ZeroEndsInZeros(zeros - 1);
    }
  }
}
