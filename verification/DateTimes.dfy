/**
 * Date-times as attribute values (src/semantic/attributeMapper.ts): which
 * texts are read, and comparison with any number of fraction digits (the
 * syntax of section 5.6 of RFC 3339).
 */
module DateTimes {
  datatype Option<+T> = None | Some(value: T)

  datatype Zone = Zulu | Offset(negative: bool, hours: nat, minutes: nat)

  datatype Stamp = Stamp(
    year: nat, month: nat, day: nat, hour: nat, minute: nat, second: nat, fraction: Option<string>, zone: Zone)

  datatype ParsedDateTime = ParsedDateTime(seconds: int, fraction: string)

  datatype Operator = Equal | GreaterEqual | LessEqual | Like

  predicate Digit(c: char) { '0' <= c <= '9' }

  predicate AllDigits(s: string) { forall c :: c in s ==> Digit(c) }

  function DigitValue(c: char): (n: nat)
    requires Digit(c)
    ensures n < 10
  {
    c as int - '0' as int
  }

  function DigitChar(n: nat): (c: char)
    requires n < 10
    ensures Digit(c) && DigitValue(c) == n
  {
    ('0' as int + n) as char
  }

  // ----- Syntax -----

  /** The fields can be written with their fixed numbers of digits. */
  predicate Writable(s: Stamp) {
    && s.year < 10000 && s.month < 100 && s.day < 100 && s.hour < 100 && s.minute < 100 && s.second < 100
    && (s.fraction.Some? ==> s.fraction.value != "" && AllDigits(s.fraction.value))
    && (s.zone.Offset? ==> s.zone.hours < 100 && s.zone.minutes < 100)
  }

  function Tens(n: nat): (c: char)
    requires n < 100
    ensures Digit(c)
  {
    DigitChar(n / 10)
  }

  function Ones(n: nat): (c: char)
    ensures Digit(c)
  {
    DigitChar(n % 10)
  }

  function TwoValue(a: char, b: char): (n: nat)
    requires Digit(a) && Digit(b)
    ensures n < 100
  {
    10 * DigitValue(a) + DigitValue(b)
  }

  function RenderZone(z: Zone): string
    requires z.Offset? ==> z.hours < 100 && z.minutes < 100
  {
    match z
    case Zulu => "Z"
    case Offset(negative, hours, minutes) =>
      [if negative then '-' else '+', Tens(hours), Ones(hours), ':', Tens(minutes), Ones(minutes)]
  }

  function RenderClock(s: Stamp): (t: string)
    requires Writable(s)
    ensures |t| == 19
  {
    var century, year := s.year / 100, s.year % 100;
    [Tens(century), Ones(century), Tens(year), Ones(year), '-', Tens(s.month), Ones(s.month), '-',
     Tens(s.day), Ones(s.day),
     'T', Tens(s.hour), Ones(s.hour), ':', Tens(s.minute), Ones(s.minute), ':', Tens(s.second), Ones(s.second)]
  }

  function RenderFraction(f: Option<string>): string { if f.None? then "" else ['.'] + f.value }

  function Render(s: Stamp): string
    requires Writable(s)
  {
    RenderClock(s) + (RenderFraction(s.fraction) + RenderZone(s.zone))
  }

  /** The number of digits at the front. */
  function DigitRun(s: string): (n: nat)
    ensures n <= |s|
  {
    if s != "" && Digit(s[0]) then 1 + DigitRun(s[1..]) else 0
  }

  function ScanZone(t: string): Option<Zone> {
    if t == "Z" then Some(Zulu)
    else if |t| == 6 && (t[0] == '+' || t[0] == '-')
         && Digit(t[1]) && Digit(t[2]) && t[3] == ':' && Digit(t[4]) && Digit(t[5])
    then Some(Offset(t[0] == '-', TwoValue(t[1], t[2]), TwoValue(t[4], t[5])))
    else None
  }

  predicate ClockShape(v: string) {
    && |v| >= 19
    && Digit(v[0]) && Digit(v[1]) && Digit(v[2]) && Digit(v[3])
    && v[4] == '-' && Digit(v[5]) && Digit(v[6]) && v[7] == '-'
    && Digit(v[8]) && Digit(v[9]) && v[10] == 'T' && Digit(v[11]) && Digit(v[12]) && v[13] == ':' && Digit(v[14])
    && Digit(v[15]) && v[16] == ':' && Digit(v[17]) && Digit(v[18])
  }

  function WithZone(v: string, fraction: Option<string>, zone: Zone): Stamp
    requires ClockShape(v)
  {
    Stamp(100 * TwoValue(v[0], v[1]) + TwoValue(v[2], v[3]), TwoValue(v[5], v[6]), TwoValue(v[8], v[9]),
      TwoValue(v[11], v[12]), TwoValue(v[14], v[15]), TwoValue(v[17], v[18]), fraction, zone)
  }

  /** The expression that a date-time text has to match. */
  function Scan(v: string): Option<Stamp> {
    if !ClockShape(v) then None
    else
      var rest := v[19..];
      var run := if rest != "" && rest[0] == '.' then DigitRun(rest[1..]) else 0;
      var zone := ScanZone(if run > 0 then rest[1 + run..] else rest);
      if zone.None? then None
      else Some(WithZone(v, if run > 0 then Some(rest[1..1 + run]) else None, zone.value))
  }

  lemma TwoRead(n: nat)
    requires n < 100
    ensures TwoValue(Tens(n), Ones(n)) == n
  {}

  lemma TwoWritten(a: char, b: char)
    requires Digit(a) && Digit(b)
    ensures Tens(TwoValue(a, b)) == a && Ones(TwoValue(a, b)) == b
  {}

  lemma {:induction false} RunOfDigits(digits: string, t: string)
    requires AllDigits(digits) && (t != "" ==> !Digit(t[0]))
    ensures DigitRun(digits + t) == |digits|
  {
    if digits == "" {
      assert digits + t == t;
    } else {
      assert (digits + t)[1..] == digits[1..] + t;
      RunOfDigits(digits[1..], t);
    }
  }

  lemma {:induction false} RunIsDigits(s: string)
    ensures AllDigits(s[..DigitRun(s)])
  {
    if s != "" && Digit(s[0]) {
      RunIsDigits(s[1..]);
      assert s[..DigitRun(s)] == [s[0]] + s[1..][..DigitRun(s[1..])];
    }
  }

  lemma ZoneRead(z: Zone)
    requires z.Offset? ==> z.hours < 100 && z.minutes < 100
    ensures ScanZone(RenderZone(z)) == Some(z)
    ensures RenderZone(z) != "" && !Digit(RenderZone(z)[0]) && RenderZone(z)[0] != '.'
  {
    if z.Offset? {
      TwoRead(z.hours);
      TwoRead(z.minutes);
    }
  }

  lemma ZoneWritten(t: string)
    requires ScanZone(t).Some?
    ensures var z := ScanZone(t).value; (z.Offset? ==> z.hours < 100 && z.minutes < 100) && RenderZone(z) == t
  {
    if t != "Z" {
      TwoWritten(t[1], t[2]);
      TwoWritten(t[4], t[5]);
    }
  }

  lemma CenturyYear(century: nat, year: nat)
    requires year < 100
    ensures (100 * century + year) / 100 == century && (100 * century + year) % 100 == year
  {}

  lemma ClockRead(s: Stamp, rest: string)
    requires Writable(s)
    ensures ClockShape(RenderClock(s) + rest)
    ensures WithZone(RenderClock(s) + rest, s.fraction, s.zone) == s
  {
    hide TwoValue, Tens, Ones;
    TwoRead(s.year / 100);
    TwoRead(s.year % 100);
    TwoRead(s.month);
    TwoRead(s.day);
    TwoRead(s.hour);
    TwoRead(s.minute);
    TwoRead(s.second);
  }

  lemma ClockWritten(v: string, fraction: Option<string>, zone: Zone)
    requires ClockShape(v) && Writable(WithZone(v, fraction, zone))
    ensures RenderClock(WithZone(v, fraction, zone)) == v[..19]
  {
    hide TwoValue, Tens, Ones;
    CenturyYear(TwoValue(v[0], v[1]), TwoValue(v[2], v[3]));
    TwoWritten(v[0], v[1]);
    TwoWritten(v[2], v[3]);
    TwoWritten(v[5], v[6]);
    TwoWritten(v[8], v[9]);
    TwoWritten(v[11], v[12]);
    TwoWritten(v[14], v[15]);
    TwoWritten(v[17], v[18]);
  }

  lemma RenderThenScan(s: Stamp)
    requires Writable(s)
    ensures Scan(Render(s)) == Some(s)
  {
    hide RenderClock, ClockShape, WithZone, ScanZone, RenderZone;
    var tail := RenderFraction(s.fraction) + RenderZone(s.zone);
    ClockRead(s, tail);
    ZoneRead(s.zone);
    assert Render(s)[19..] == tail;
    if s.fraction.Some? {
      var digits := s.fraction.value;
      assert tail[1..] == digits + RenderZone(s.zone);
      RunOfDigits(digits, RenderZone(s.zone));
      assert tail[1 + |digits|..] == RenderZone(s.zone) && tail[1..1 + |digits|] == digits;
    } else {
      assert tail == RenderZone(s.zone);
    }
  }

  lemma ScanThenRender(v: string)
    requires Scan(v).Some?
    ensures Writable(Scan(v).value) && Render(Scan(v).value) == v
  {
    hide RenderClock, ScanZone, RenderZone;
    var s, rest := Scan(v).value, v[19..];
    var run := if rest != "" && rest[0] == '.' then DigitRun(rest[1..]) else 0;
    ZoneWritten(if run > 0 then rest[1 + run..] else rest);
    if run > 0 {
      RunIsDigits(rest[1..]);
      assert rest[1..][..run] == rest[1..1 + run];
      assert rest == ['.'] + rest[1..1 + run] + rest[1 + run..];
    } else {
      assert [] + rest == rest;
    }
    ClockWritten(v, s.fraction, s.zone);
    assert v == v[..19] + rest;
  }

  /** A text is read as a stamp exactly when it is the stamp written out. */
  lemma ScanExactly(v: string, s: Stamp)
    ensures Scan(v) == Some(s) <==> Writable(s) && v == Render(s)
  {
    hide Scan, Render, Writable;
    if Scan(v) == Some(s) { ScanThenRender(v); }
    if Writable(s) && v == Render(s) { RenderThenScan(s); }
  }

  // ----- The calendar -----

  predicate Leap(year: nat) { year % 4 == 0 && (year % 100 != 0 || year % 400 == 0) }

  function DaysIn(year: nat, month: nat): nat
    requires 1 <= month <= 12
  {
    if month == 2 then (if Leap(year) then 29 else 28)
    else if month == 4 || month == 6 || month == 9 || month == 11 then 30
    else 31
  }

  function DaysBeforeMonth(year: nat, month: nat): nat
    requires 1 <= month <= 13
  {
    if month == 1 then 0 else DaysBeforeMonth(year, month - 1) + DaysIn(year, month - 1)
  }

  function DaysBeforeYear(year: nat): nat {
    if year == 0 then 0 else DaysBeforeYear(year - 1) + DaysBeforeMonth(year - 1, 13)
  }

  predicate CalendarDay(year: nat, month: nat, day: nat) { 1 <= month <= 12 && 1 <= day <= DaysIn(year, month) }

  /** The platform reads the years below 100 as 19xx, so no date in them survives the comparison of the fields. */
  const FIRST_YEAR := 100

  /** Days since the epoch. */
  function Days(year: nat, month: nat, day: nat): int
    requires CalendarDay(year, month, day)
  {
    DaysBeforeYear(year) + DaysBeforeMonth(year, month) + day - 1 - DaysBeforeYear(1970)
  }

  function ZoneSeconds(z: Zone): int {
    match z
    case Zulu => 0
    case Offset(negative, hours, minutes) => (if negative then -1 else 1) * (3600 * hours + 60 * minutes)
  }

  predicate Sensible(s: Stamp) {
    && s.year >= FIRST_YEAR && CalendarDay(s.year, s.month, s.day)
    && s.hour <= 23 && s.minute <= 59 && s.second <= 59
    && (s.zone.Offset? ==> s.zone.hours <= 23 && s.zone.minutes <= 59 && s.zone != Offset(true, 0, 0))
  }

  function EpochSeconds(s: Stamp): int
    requires CalendarDay(s.year, s.month, s.day)
  {
    86400 * Days(s.year, s.month, s.day) + 3600 * s.hour + 60 * s.minute + s.second - ZoneSeconds(s.zone)
  }

  /** `replace(/0+$/, "")` */
  function Stripped(digits: string): string {
    if digits != "" && digits[|digits| - 1] == '0' then Stripped(digits[..|digits| - 1]) else digits
  }

  function Digits(f: Option<string>): string { if f.None? then "" else f.value }

  function ParseDateTimeValue(v: string): Option<ParsedDateTime> {
    var s := Scan(v);
    if s.None? || !Sensible(s.value) then None
    else Some(ParsedDateTime(EpochSeconds(s.value), Stripped(Digits(s.value.fraction))))
  }

  // ----- Comparison -----

  function Pow10(n: nat): nat { if n == 0 then 1 else 10 * Pow10(n - 1) }

  /** The integer that decimal digits denote. */
  function Decimal(s: string): nat
    requires AllDigits(s)
  {
    if s == "" then 0 else DigitValue(s[0]) * Pow10(|s| - 1) + Decimal(s[1..])
  }

  function Zeros(n: nat): (s: string)
    ensures |s| == n && AllDigits(s)
  {
    seq(n, _ => '0')
  }

  function PadEnd(s: string, length: nat): string { if |s| >= length then s else s + Zeros(length - |s|) }

  function OrZero(s: string): string { if s == "" then "0" else s }

  function CompareFraction(a: string, b: string): int
    requires AllDigits(a) && AllDigits(b)
  {
    var length := if |a| < |b| then |b| else |a|;
    var left, right := Decimal(PadEnd(OrZero(a), length)), Decimal(PadEnd(OrZero(b), length));
    if left < right then -1 else if left > right then 1 else 0
  }

  function CompareDateTime(a: ParsedDateTime, b: ParsedDateTime, op: Operator): bool
    requires AllDigits(a.fraction) && AllDigits(b.fraction)
  {
    var comparison :=
      if a.seconds < b.seconds then -1
      else if a.seconds > b.seconds then 1
      else CompareFraction(a.fraction, b.fraction);
    match op
    case Equal => comparison == 0
    case GreaterEqual => comparison >= 0
    case LessEqual => comparison <= 0
    case Like => false
  }

  // ----- Instants -----

  /** The value of the digits behind the point. */
  ghost function FractionValue(digits: string): real
    requires AllDigits(digits)
  {
    if digits == "" then 0.0 else (DigitValue(digits[0]) as real + FractionValue(digits[1..])) / 10.0
  }

  /** The instant that a stamp denotes, with all of its digits. */
  ghost function Instant(s: Stamp): real
    requires Sensible(s) && Writable(s)
  {
    EpochSeconds(s) as real + FractionValue(Digits(s.fraction))
  }

  lemma {:induction false} FractionBelowOne(digits: string)
    requires AllDigits(digits)
    ensures 0.0 <= FractionValue(digits) < 1.0
  {
    if digits != "" { FractionBelowOne(digits[1..]); }
  }

  lemma {:induction false} PaddedValue(digits: string, n: nat)
    requires AllDigits(digits)
    ensures FractionValue(digits + Zeros(n)) == FractionValue(digits)
    decreases |digits|, n
  {
    if digits != "" {
      PaddedValue(digits[1..], n);
      assert (digits + Zeros(n))[1..] == digits[1..] + Zeros(n);
    } else {
      assert digits + Zeros(n) == Zeros(n);
      if n > 0 {
        assert Zeros(n)[1..] == Zeros(n - 1) && [] + Zeros(n - 1) == Zeros(n - 1);
        PaddedValue(digits, n - 1);
      }
    }
  }

  lemma {:induction false} StrippedValue(digits: string)
    requires AllDigits(digits)
    ensures AllDigits(Stripped(digits)) && FractionValue(Stripped(digits)) == FractionValue(digits)
  {
    if digits != "" && digits[|digits| - 1] == '0' {
      var rest := digits[..|digits| - 1];
      StrippedValue(rest);
      PaddedValue(rest, 1);
      assert rest + Zeros(1) == digits;
    }
  }

  /** `f` scaled by `p`; kept apart so that products of variables stay here. */
  ghost function Times(f: real, p: nat): real { f * p as real }

  lemma TimesStep(d: nat, f: real, p: nat)
    ensures Times((d as real + f) / 10.0, 10 * p) == (d * p) as real + Times(f, p)
  {
    var x, q := (d as real + f) / 10.0, p as real;
    assert (10 * p) as real == 10.0 * q;
    assert x * (10.0 * q) == (x * 10.0) * q;
    assert x * 10.0 == d as real + f;
    assert (d as real + f) * q == d as real * q + f * q;
    assert (d * p) as real == d as real * q;
  }

  /** Digits read as an integer are the fraction scaled up. */
  lemma {:induction false} Scaled(digits: string)
    requires AllDigits(digits)
    ensures Decimal(digits) as real == Times(FractionValue(digits), Pow10(|digits|))
  {
    hide Times;
    if digits == "" {
      NothingScaled();
    } else {
      Scaled(digits[1..]);
      TimesStep(DigitValue(digits[0]), FractionValue(digits[1..]), Pow10(|digits| - 1));
      SumAsReal(DigitValue(digits[0]) * Pow10(|digits| - 1), Decimal(digits[1..]));
    }
  }

  lemma NothingScaled()
    ensures Times(0.0, 1) == 0.0
  {}

  lemma SumAsReal(a: nat, b: nat)
    ensures (a + b) as real == a as real + b as real
  {}

  lemma {:induction false} PowPositive(n: nat)
    ensures Pow10(n) >= 1
  {
    if n > 0 { PowPositive(n - 1); }
  }

  lemma TimesOrder(x: real, y: real, p: nat)
    requires p >= 1 && x < y
    ensures Times(x, p) < Times(y, p)
  {
    assert (y - x) * p as real > 0.0;
  }

  /** Padded and compared as integers, fractions compare as numbers. */
  lemma FractionsCompare(a: string, b: string)
    requires AllDigits(a) && AllDigits(b)
    ensures CompareFraction(a, b) == 0 <==> FractionValue(a) == FractionValue(b)
    ensures CompareFraction(a, b) < 0 <==> FractionValue(a) < FractionValue(b)
    ensures CompareFraction(a, b) > 0 <==> FractionValue(a) > FractionValue(b)
  {
    hide FractionValue, Decimal, Pow10, Zeros, AllDigits, Times, PadEnd, OrZero;
    if a != "" || b != "" {
      var length := if |a| < |b| then |b| else |a|;
      PaddedFraction(a, length);
      PaddedFraction(b, length);
      DigitsCompare(PadEnd(OrZero(a), length), PadEnd(OrZero(b), length));
    }
  }

  lemma DigitsCompare(left: string, right: string)
    requires AllDigits(left) && AllDigits(right) && |left| == |right|
    ensures Decimal(left) < Decimal(right) <==> FractionValue(left) < FractionValue(right)
    ensures Decimal(left) > Decimal(right) <==> FractionValue(left) > FractionValue(right)
  {
    hide FractionValue, Decimal, Pow10, AllDigits, Times;
    var p, x, y := Pow10(|left|), FractionValue(left), FractionValue(right);
    Scaled(left);
    Scaled(right);
    PowPositive(|left|);
    if x < y { TimesOrder(x, y, p); }
    if y < x { TimesOrder(y, x, p); }
  }

  lemma PaddedFraction(a: string, length: nat)
    requires AllDigits(a) && |a| <= length && length > 0
    ensures var padded := PadEnd(OrZero(a), length);
      |padded| == length && AllDigits(padded) && FractionValue(padded) == FractionValue(a)
  {
    if a == "" {
      PaddedValue("", 1);
      assert "" + Zeros(1) == "0";
      PaddedValue("0", length - 1);
      if length == 1 { assert "0" + Zeros(0) == "0"; }
    } else {
      PaddedValue(a, length - |a|);
      assert a + Zeros(0) == a;
    }
  }

  /** The outcomes agree with the exact comparison of the instants. */
  lemma ComparisonIsExact(s: Stamp, t: Stamp)
    requires Writable(s) && Sensible(s) && Writable(t) && Sensible(t)
    ensures ParseDateTimeValue(Render(s)).Some? && ParseDateTimeValue(Render(t)).Some?
    ensures var a, b := ParseDateTimeValue(Render(s)).value, ParseDateTimeValue(Render(t)).value;
      && AllDigits(a.fraction) && AllDigits(b.fraction)
      && (CompareDateTime(a, b, Equal) <==> Instant(s) == Instant(t))
      && (CompareDateTime(a, b, GreaterEqual) <==> Instant(s) >= Instant(t))
      && (CompareDateTime(a, b, LessEqual) <==> Instant(s) <= Instant(t))
      && !CompareDateTime(a, b, Like)
  {
    hide Scan, Render, EpochSeconds, CompareFraction, FractionValue, Stripped;
    RenderThenScan(s);
    RenderThenScan(t);
    FractionDigits(s);
    FractionDigits(t);
    var f, g := Digits(s.fraction), Digits(t.fraction);
    StrippedValue(f);
    StrippedValue(g);
    FractionBelowOne(f);
    FractionBelowOne(g);
    FractionsCompare(Stripped(f), Stripped(g));
  }

  lemma FractionDigits(s: Stamp)
    requires Writable(s)
    ensures AllDigits(Digits(s.fraction))
  {}

  /** A text is accepted exactly when it is a stamp written out whose fields name a day, a time and an offset. */
  lemma AcceptedExactly(v: string)
    ensures ParseDateTimeValue(v).Some? <==> exists s :: Writable(s) && Render(s) == v && OnCalendar(s)
  {
    hide Scan, Render, EpochSeconds, Stripped, CalendarDay;
    if ParseDateTimeValue(v).Some? {
      ScanThenRender(v);
      OnCalendarExactly(Scan(v).value);
    }
    if s :| Writable(s) && Render(s) == v && OnCalendar(s) {
      RenderThenScan(s);
      OnCalendarExactly(s);
    }
  }

  /** A day of the Gregorian calendar from the year 100 on, a time of that day, an offset below 24 hours but -00:00. */
  predicate OnCalendar(s: Stamp) {
    var leap := if s.year % 400 == 0 || (s.year % 4 == 0 && s.year % 100 != 0) then 1 else 0;
    && 100 <= s.year && 1 <= s.month <= 12
    && 1 <= s.day <= (if s.month == 2 then 28 + leap else LENGTHS[s.month - 1])
    && s.hour < 24 && s.minute < 60 && s.second < 60
    && (s.zone.Offset? ==>
          && s.zone.hours < 24 && s.zone.minutes < 60
          && (s.zone.negative ==> s.zone.hours > 0 || s.zone.minutes > 0))
  }

  /** The days of the months in a common year. */
  const LENGTHS: seq<nat> := [31, 28, 31, 30, 31, 30, 31, 31, 30, 31, 30, 31]

  lemma OnCalendarExactly(s: Stamp)
    ensures OnCalendar(s) <==> Sensible(s)
  {
    hide DaysIn, Leap;
    LeapExactly(s.year);
    if 1 <= s.month <= 12 { MonthLengths(s.year, s.month); }
  }

  lemma LeapExactly(year: nat)
    ensures Leap(year) <==> year % 400 == 0 || (year % 4 == 0 && year % 100 != 0)
  {
    if year % 400 == 0 { DividesBy(year, 100, 4); }
    if year % 100 == 0 { DividesBy(year, 4, 25); }
  }

  // ----- Order of local times -----

  lemma {:induction false} MonthsInOrder(year: nat, month: nat, later: nat)
    requires 1 <= month < later <= 13
    ensures DaysBeforeMonth(year, month) + DaysIn(year, month) <= DaysBeforeMonth(year, later)
    decreases later
  {
    if month + 1 < later { MonthsInOrder(year, month, later - 1); }
  }

  lemma {:induction false} YearsInOrder(year: nat, later: nat)
    requires year < later
    ensures DaysBeforeYear(year) + DaysBeforeMonth(year, 13) <= DaysBeforeYear(later)
  {
    hide DaysBeforeMonth;
    if year + 1 < later { YearsInOrder(year, later - 1); }
  }

  predicate EarlierDate(s: Stamp, t: Stamp) {
    s.year < t.year || (s.year == t.year && (s.month < t.month || (s.month == t.month && s.day < t.day)))
  }

  predicate EarlierTime(s: Stamp, t: Stamp) {
    s.hour < t.hour || (s.hour == t.hour && (s.minute < t.minute || (s.minute == t.minute && s.second < t.second)))
  }

  predicate SameDate(s: Stamp, t: Stamp) { s.year == t.year && s.month == t.month && s.day == t.day }

  predicate SameTime(s: Stamp, t: Stamp) { s.hour == t.hour && s.minute == t.minute && s.second == t.second }

  lemma DatesInOrder(s: Stamp, t: Stamp)
    requires CalendarDay(s.year, s.month, s.day) && CalendarDay(t.year, t.month, t.day) && EarlierDate(s, t)
    ensures Days(s.year, s.month, s.day) < Days(t.year, t.month, t.day)
  {
    hide DaysBeforeMonth, DaysBeforeYear, DaysIn;
    MonthsInOrder(s.year, s.month, 13);
    if s.year < t.year {
      YearsInOrder(s.year, t.year);
    } else if s.month < t.month {
      MonthsInOrder(s.year, s.month, t.month);
    }
  }

  // ----- The Gregorian calendar -----

  /** The lengths of the months, from a table. */
  lemma MonthLengths(year: nat, month: nat)
    requires 1 <= month <= 12
    ensures DaysIn(year, month) - (if month == 2 && Leap(year) then 1 else 0) == LENGTHS[month - 1]
  {
    hide Leap;
  }

  lemma YearLength(year: nat)
    ensures DaysBeforeMonth(year, 13) == if Leap(year) then 366 else 365
  {
    hide DaysBeforeMonth;
    MonthUnfold(year, 13); MonthUnfold(year, 12); MonthUnfold(year, 11); MonthUnfold(year, 10);
    MonthUnfold(year, 9); MonthUnfold(year, 8); MonthUnfold(year, 7); MonthUnfold(year, 6);
    MonthUnfold(year, 5); MonthUnfold(year, 4); MonthUnfold(year, 3); MonthUnfold(year, 2); MonthUnfold(year, 1);
  }

  /** One leap day every four years, but for the centuries that 400 does not divide. */
  lemma DaysInClosedForm(year: nat)
    ensures DaysBeforeYear(year) == 365 * year + (year + 3) / 4 - (year + 99) / 100 + (year + 399) / 400
  {
    hide DaysBeforeYear;
    LeapDaysCounted(year);
  }

  /** How many years before `year` the number divides, year 0 among them. */
  function Multiples(year: nat, n: nat): nat
    requires n > 0
  {
    (year + (n - 1)) / n
  }

  /** 1 for the years that the number divides. */
  function Divided(year: nat, n: nat): nat
    requires n > 0
  {
    if year % n == 0 then 1 else 0
  }

  lemma {:induction false} LeapDaysCounted(year: nat)
    ensures DaysBeforeYear(year) == 365 * year + Multiples(year, 4) - Multiples(year, 100) + Multiples(year, 400)
  {
    hide DaysBeforeMonth, Multiples, Divided, Leap;
    if year == 0 {
      NoMultiples(4);
      NoMultiples(100);
      NoMultiples(400);
    } else {
      LeapDaysCounted(year - 1);
      YearUnfold(year);
      YearLength(year - 1);
      LeapDivided(year - 1);
      NextMultiple(year, 4);
      NextMultiple(year, 100);
      NextMultiple(year, 400);
    }
  }

  lemma NoMultiples(n: nat)
    requires n > 0
    ensures Multiples(0, n) == 0
  {
    var q := (n - 1) / n;
    assert n - 1 == n * q + (n - 1) % n;
    assert q >= 1 ==> n * q >= n;
  }

  lemma NextMultiple(year: nat, n: nat)
    requires year > 0 && n in {4, 100, 400}
    ensures Multiples(year, n) == Multiples(year - 1, n) + Divided(year - 1, n)
  {
    var q, r := (year - 1) / n, (year - 1) % n;
    if n == 4 {
      assert year - 1 == 4 * q + r;
    } else if n == 100 {
      assert year - 1 == 100 * q + r;
    } else {
      assert year - 1 == 400 * q + r;
    }
  }

  lemma LeapDivided(year: nat)
    ensures (if Leap(year) then 1 else 0) == Divided(year, 4) - Divided(year, 100) + Divided(year, 400)
  {
    if year % 100 == 0 { DividesBy(year, 4, 25); }
    if year % 400 == 0 { DividesBy(year, 100, 4); }
  }

  /** What a multiple divides, its factor divides. */
  lemma DividesBy(year: nat, n: nat, m: nat)
    requires (n, m) in {(4, 25), (100, 4)} && year % (n * m) == 0
    ensures year % n == 0
  {
    var q := year / (n * m);
    if n == 4 {
      Multiple4(25 * q);
    } else {
      Multiple100(4 * q);
    }
  }

  lemma Multiple4(k: nat)
    ensures 4 * k % 4 == 0
  {}

  lemma Multiple100(k: nat)
    ensures 100 * k % 100 == 0
  {}

  // ----- The clock in UTC -----

  /** The next day on the calendar. */
  function DayAfter(s: Stamp): Stamp
    requires CalendarDay(s.year, s.month, s.day)
  {
    if s.day < DaysIn(s.year, s.month) then s.(day := s.day + 1)
    else if s.month < 12 then s.(month := s.month + 1, day := 1)
    else s.(year := s.year + 1, month := 1, day := 1)
  }

  /** The day before on the calendar; the first day of year 0 has none. */
  function DayBefore(s: Stamp): Stamp
    requires CalendarDay(s.year, s.month, s.day) && (s.year, s.month, s.day) != (0, 1, 1)
  {
    if s.day > 1 then s.(day := s.day - 1)
    else if s.month > 1 then s.(month := s.month - 1, day := DaysIn(s.year, s.month - 1))
    else s.(year := s.year - 1, month := 12, day := 31)
  }

  /** The same reading of the clock in UTC: moved back by a positive offset, forward by a negative one. */
  function Universal(s: Stamp): Stamp
    requires Sensible(s)
  {
    match s.zone
    case Zulu => s
    case Offset(negative, hours, minutes) =>
      var clock := 60 * s.hour + s.minute;
      var moved := if negative then clock + (60 * hours + minutes) else clock - (60 * hours + minutes);
      if moved < 0 then DayBefore(s).(hour := (moved + 1440) / 60, minute := (moved + 1440) % 60, zone := Zulu)
      else if moved < 1440 then s.(hour := moved / 60, minute := moved % 60, zone := Zulu)
      else DayAfter(s).(hour := (moved - 1440) / 60, minute := (moved - 1440) % 60, zone := Zulu)
  }

  /** The clock one second later. */
  function Tick(s: Stamp): Stamp
    requires CalendarDay(s.year, s.month, s.day)
  {
    if s.second < 59 then s.(second := s.second + 1)
    else if s.minute < 59 then s.(minute := s.minute + 1, second := 0)
    else if s.hour < 23 then s.(hour := s.hour + 1, minute := 0, second := 0)
    else DayAfter(s).(hour := 0, minute := 0, second := 0)
  }

  lemma DayAfterIsNext(s: Stamp)
    requires CalendarDay(s.year, s.month, s.day)
    ensures var t := DayAfter(s);
      && CalendarDay(t.year, t.month, t.day) && Days(t.year, t.month, t.day) == Days(s.year, s.month, s.day) + 1
      && t == s.(year := t.year, month := t.month, day := t.day)
  {
    hide DaysBeforeMonth, DaysBeforeYear;
    MonthUnfold(s.year, s.month + 1);
    MonthUnfold(s.year, 1);
    MonthUnfold(s.year + 1, 1);
    YearUnfold(s.year + 1);
  }

  lemma MonthUnfold(year: nat, month: nat)
    requires 1 <= month <= 13
    ensures DaysBeforeMonth(year, month)
         == if month == 1 then 0 else DaysBeforeMonth(year, month - 1) + DaysIn(year, month - 1)
  {}

  lemma YearUnfold(year: nat)
    requires year > 0
    ensures DaysBeforeYear(year) == DaysBeforeYear(year - 1) + DaysBeforeMonth(year - 1, 13)
  {
    hide DaysBeforeMonth;
  }

  lemma DayBeforeAfter(s: Stamp)
    requires CalendarDay(s.year, s.month, s.day) && (s.year, s.month, s.day) != (0, 1, 1)
    ensures var t := DayBefore(s); CalendarDay(t.year, t.month, t.day) && DayAfter(t) == s
    ensures DayBefore(s) == s.(year := DayBefore(s).year, month := DayBefore(s).month, day := DayBefore(s).day)
  {}

  /** Moving the clock to UTC moves no instant. */
  lemma UniversalSame(s: Stamp)
    requires Sensible(s)
    ensures var t := Universal(s);
      && CalendarDay(t.year, t.month, t.day) && t.hour <= 23 && t.minute <= 59 && t.second <= 59
      && t.zone == Zulu && t.fraction == s.fraction && EpochSeconds(t) == EpochSeconds(s)
  {
    hide Days, DayAfter, DayBefore, DaysIn;
    if s.zone.Offset? {
      DayAfterIsNext(s);
      DayBeforeAfter(s);
      DayAfterIsNext(DayBefore(s));
    }
  }

  /** A clock time and the same time in UTC are equal date-times, across days, months, leap days and years. */
  lemma OffsetLaw(s: Stamp)
    requires Writable(s) && Sensible(s) && Writable(Universal(s)) && Sensible(Universal(s))
    ensures ParseDateTimeValue(Render(s)).Some?
    ensures ParseDateTimeValue(Render(s)) == ParseDateTimeValue(Render(Universal(s)))
  {
    hide Render, Scan, EpochSeconds, Universal, Writable, Sensible;
    UniversalSame(s);
    RenderThenScan(s);
    RenderThenScan(Universal(s));
  }

  /** One second more on the clock is one more. */
  lemma OneSecondMore(s: Stamp)
    requires Writable(s) && Sensible(s) && Writable(Tick(s))
    ensures var a, b := ParseDateTimeValue(Render(s)), ParseDateTimeValue(Render(Tick(s)));
      a.Some? && b.Some? && b.value.seconds == a.value.seconds + 1 && b.value.fraction == a.value.fraction
  {
    hide Render, Scan, Days, ZoneSeconds, Writable;
    DayAfterIsNext(s);
    RenderThenScan(s);
    RenderThenScan(Tick(s));
  }

  /** Counting starts with 1970 in UTC. */
  lemma CountedFrom1970()
    ensures ParseDateTimeValue("1970-01-01T00:00:00Z") == Some(ParsedDateTime(0, ""))
  {
    hide DaysBeforeYear, Scan;
    var s := Stamp(1970, 1, 1, 0, 0, 0, None, Zulu);
    RenderThenScan(s);
    assert RenderClock(s) == "1970-01-01T00:00:00";
    assert Render(s) == "1970-01-01T00:00:00Z";
  }

  /** Earlier on the clock, digit by digit of the fraction. */
  ghost predicate Earlier(s: Stamp, t: Stamp)
    requires AllDigits(Digits(s.fraction)) && AllDigits(Digits(t.fraction))
  {
    EarlierDate(s, t) || (SameDate(s, t) && (EarlierTime(s, t) || (SameTime(s, t)
      && FractionValue(Digits(s.fraction)) < FractionValue(Digits(t.fraction)))))
  }

  lemma ClockOrder(s: Stamp, t: Stamp)
    requires CalendarDay(s.year, s.month, s.day) && s.hour <= 23 && s.minute <= 59 && s.second <= 59
    requires CalendarDay(t.year, t.month, t.day) && t.hour <= 23 && t.minute <= 59 && t.second <= 59
    requires s.zone == t.zone
    ensures EpochSeconds(s) < EpochSeconds(t) <==> EarlierDate(s, t) || (SameDate(s, t) && EarlierTime(s, t))
  {
    hide Days, ZoneSeconds;
    if EarlierDate(s, t) { DatesInOrder(s, t); }
    if EarlierDate(t, s) { DatesInOrder(t, s); }
  }

  /** With the same offset, date-times compare field by field and digit by digit. */
  lemma LocalOrder(s: Stamp, t: Stamp)
    requires Writable(s) && Sensible(s) && Writable(t) && Sensible(t) && s.zone == t.zone
    ensures AllDigits(Digits(s.fraction)) && AllDigits(Digits(t.fraction))
    ensures Instant(s) < Instant(t) <==> Earlier(s, t)
  {
    hide EpochSeconds, FractionValue, CalendarDay;
    FractionDigits(s);
    FractionDigits(t);
    FractionBelowOne(Digits(s.fraction));
    FractionBelowOne(Digits(t.fraction));
    ClockOrder(s, t);
    ClockOrder(t, s);
    ClockSame(s, t);
  }

  /** Whatever their offsets, date-times compare as their clocks in UTC do, field by field and digit by digit. */
  lemma ComparedInUtc(s: Stamp, t: Stamp)
    requires Writable(s) && Sensible(s) && Writable(t) && Sensible(t)
    ensures ParseDateTimeValue(Render(s)).Some? && ParseDateTimeValue(Render(t)).Some?
    ensures AllDigits(Digits(Universal(s).fraction)) && AllDigits(Digits(Universal(t).fraction))
    ensures
      var a, b := ParseDateTimeValue(Render(s)).value, ParseDateTimeValue(Render(t)).value;
      var before, after := Earlier(Universal(s), Universal(t)), Earlier(Universal(t), Universal(s));
      && AllDigits(a.fraction) && AllDigits(b.fraction)
      && (CompareDateTime(a, b, Equal) <==> !before && !after)
      && (CompareDateTime(a, b, GreaterEqual) <==> !before)
      && (CompareDateTime(a, b, LessEqual) <==> !after)
      && !CompareDateTime(a, b, Like)
  {
    hide Render, EpochSeconds, Universal, FractionValue, CompareDateTime, ParseDateTimeValue, CalendarDay;
    ComparisonIsExact(s, t);
    FractionDigits(s);
    FractionDigits(t);
    FractionBelowOne(Digits(s.fraction));
    FractionBelowOne(Digits(t.fraction));
    UniversalSame(s);
    UniversalSame(t);
    ClockOrder(Universal(s), Universal(t));
    ClockOrder(Universal(t), Universal(s));
    ClockSame(Universal(s), Universal(t));
  }

  lemma ClockSame(s: Stamp, t: Stamp)
    requires CalendarDay(s.year, s.month, s.day) && CalendarDay(t.year, t.month, t.day)
    ensures !EarlierDate(s, t) && !EarlierDate(t, s) ==> SameDate(s, t)
    ensures !EarlierTime(s, t) && !EarlierTime(t, s) ==> SameTime(s, t)
  {}

  /** Dates that RFC 3339 allows and the original does not read. */
  lemma NotRead(s: Stamp)
    requires Writable(s) && (s.year < FIRST_YEAR || s.second == 60 || s.zone == Offset(true, 0, 0))
    ensures ParseDateTimeValue(Render(s)) == None
  {
    RenderThenScan(s);
  }
}
