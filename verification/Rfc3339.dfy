/**
 Instants and their UTC rendering with nanosecond precision (section 5.6 of RFC 3339), as the
 custody hash chain and the snapshot wire format use it. An instant is a count of nanoseconds since
 0000-01-01T00:00:00Z of the proleptic Gregorian calendar.
 */
module Rfc3339 {
  import opened Decimal
  import opened Text

  type Instant = int

  /** `t.Unix()`: whole seconds since 1970, which begins 719528 days after year 0, rounded toward the past. */
  function Unix(t: Instant): int {
    t / 1_000_000_000 - 62_167_219_200
  }

  // ----- calendar -----

  predicate IsLeap(y: int) {
    y % 4 == 0 && (y % 100 != 0 || y % 400 == 0)
  }

  /** Days from 0000-01-01 to January 1 of year y. */
  function DaysBeforeYear(y: int): int {
    365 * y + (y + 3) / 4 - (y + 99) / 100 + (y + 399) / 400
  }

  lemma YearLength(y: int)
    ensures DaysBeforeYear(y + 1) - DaysBeforeYear(y) == if IsLeap(y) then 366 else 365
  {
    FourYears(y);
    Century(y, y / 100, y % 100);
    FourCenturies(y, y / 400, y % 400);
    if y % 100 == 0 {
      Coarser(y, y / 100);
    }
    if y % 400 == 0 {
      CoarserStill(y, y / 400);
    }
  }

  lemma FourYears(y: int)
    ensures (y + 1 + 3) / 4 - (y + 3) / 4 == if y % 4 == 0 then 1 else 0
  {
  }

  /** Rounding up to whole centuries steps at the multiples of 100. */
  lemma Century(y: int, q: int, r: int)
    requires y == 100 * q + r && 0 <= r < 100
    ensures (y + 100) / 100 - (y + 99) / 100 == if r == 0 then 1 else 0
  {
  }

  lemma FourCenturies(y: int, q: int, r: int)
    requires y == 400 * q + r && 0 <= r < 400
    ensures (y + 400) / 400 - (y + 399) / 400 == if r == 0 then 1 else 0
  {
  }

  lemma Coarser(y: int, q: int)
    requires y == 100 * q
    ensures y % 4 == 0
  {
  }

  lemma CoarserStill(y: int, q: int)
    requires y == 400 * q
    ensures y % 100 == 0
  {
  }

  /** The year containing day d, found by walking from year y. */
  function YearFrom(d: int, y: int): (r: int)
    ensures DaysBeforeYear(r) <= d < DaysBeforeYear(r + 1)
    decreases if d < DaysBeforeYear(y) then DaysBeforeYear(y) - d
              else if DaysBeforeYear(y + 1) <= d then d - DaysBeforeYear(y + 1) + 1 else 0
  {
    YearLength(y - 1);
    YearLength(y);
    YearLength(y + 1);
    if d < DaysBeforeYear(y) then YearFrom(d, y - 1)
    else if DaysBeforeYear(y + 1) <= d then YearFrom(d, y + 1)
    else y
  }

  /** Days of the year before the first of month m (m == 13 is the year's length). */
  function DaysBeforeMonth(leap: bool, m: nat): nat
    requires 1 <= m <= 13
  {
    var leapDay := if leap then 1 else 0;
    if m == 1 then 0
    else if m == 2 then 31
    else if m == 3 then 59 + leapDay
    else if m == 4 then 90 + leapDay
    else if m == 5 then 120 + leapDay
    else if m == 6 then 151 + leapDay
    else if m == 7 then 181 + leapDay
    else if m == 8 then 212 + leapDay
    else if m == 9 then 243 + leapDay
    else if m == 10 then 273 + leapDay
    else if m == 11 then 304 + leapDay
    else if m == 12 then 334 + leapDay
    else 365 + leapDay
  }

  /** Thirty days hath September, April, June and November. */
  function MonthDays(leap: bool, m: nat): nat {
    if m == 2 then (if leap then 29 else 28)
    else if m in {4, 6, 9, 11} then 30
    else 31
  }

  lemma MonthLength(leap: bool, m: nat)
    requires 1 <= m <= 12
    ensures DaysBeforeMonth(leap, m + 1) == DaysBeforeMonth(leap, m) + MonthDays(leap, m)
  {
  }

  function MonthFrom(leap: bool, day: nat, m: nat): (r: nat)
    requires 1 <= m <= 12 && DaysBeforeMonth(leap, m) <= day < DaysBeforeMonth(leap, 13)
    ensures 1 <= r <= 12 && DaysBeforeMonth(leap, r) <= day < DaysBeforeMonth(leap, r) + MonthDays(leap, r)
    decreases 12 - m
  {
    MonthLength(leap, m);
    if day < DaysBeforeMonth(leap, m + 1) then m else MonthFrom(leap, day, m + 1)
  }

  datatype Date = Date(year: int, month: nat, day: nat)

  /** A date of the Gregorian calendar. */
  predicate IsDate(d: Date) {
    1 <= d.month <= 12 && 1 <= d.day <= MonthDays(IsLeap(d.year), d.month)
  }

  /** The date of a zero-based day of year y. */
  function DateInYear(y: int, dayOfYear: nat): (r: Date)
    requires dayOfYear < DaysBeforeMonth(IsLeap(y), 13)
    ensures r.year == y && IsDate(r)
    ensures DaysBeforeMonth(IsLeap(y), r.month) + r.day - 1 == dayOfYear
  {
    var m := MonthFrom(IsLeap(y), dayOfYear, 1);
    Date(y, m, dayOfYear - DaysBeforeMonth(IsLeap(y), m) + 1)
  }

  /** The calendar date of a day number; the equation says the date determines the day number. */
  function DateOf(d: int): (r: Date)
    ensures IsDate(r)
    ensures DaysBeforeYear(r.year) + DaysBeforeMonth(IsLeap(r.year), r.month) + r.day - 1 == d
  {
    var y := YearFrom(d, 0);
    YearLength(y);
    DateInYear(y, d - DaysBeforeYear(y))
  }

  function YearOf(t: Instant): int {
    DateOf(t / 86_400_000_000_000).year
  }

  /** Years that four digits can write. */
  predicate Encodable(t: Instant) {
    0 <= YearOf(t) <= 9999
  }

  /** The next date of the calendar. */
  function Tomorrow(d: Date): Date {
    if d.day < MonthDays(IsLeap(d.year), d.month) then Date(d.year, d.month, d.day + 1)
    else if d.month < 12 then Date(d.year, d.month + 1, 1)
    else Date(d.year + 1, 1, 1)
  }

  function DayNumber(d: Date): int
    requires IsDate(d)
  {
    DaysBeforeYear(d.year) + DaysBeforeMonth(IsLeap(d.year), d.month) + d.day - 1
  }

  lemma {:induction false} YearsAscend(y: int, z: int)
    requires y < z
    ensures DaysBeforeYear(y + 1) <= DaysBeforeYear(z)
    decreases z - y
  {
    if y + 1 < z {
      YearsAscend(y, z - 1);
      YearLength(z - 1);
    }
  }

  lemma {:induction false} MonthsAscend(leap: bool, m: nat, n: nat)
    requires 1 <= m < n <= 13
    ensures DaysBeforeMonth(leap, m + 1) <= DaysBeforeMonth(leap, n)
    decreases n - m
  {
    if m + 1 < n {
      MonthsAscend(leap, m, n - 1);
      MonthLength(leap, n - 1);
    }
  }

  lemma DayInYear(d: Date)
    requires IsDate(d)
    ensures DaysBeforeYear(d.year) <= DayNumber(d) < DaysBeforeYear(d.year + 1)
  {
    hide DaysBeforeYear;
    MonthLength(IsLeap(d.year), d.month);
    if d.month < 12 {
      MonthsAscend(IsLeap(d.year), d.month, 13);
    }
    YearLength(d.year);
  }

  lemma SameYear(d: Date, e: Date)
    requires IsDate(d) && IsDate(e) && DayNumber(d) == DayNumber(e)
    ensures d.year == e.year
  {
    DayInYear(d);
    DayInYear(e);
    hide DaysBeforeYear, DayNumber;
    if d.year < e.year {
      YearsAscend(d.year, e.year);
    } else if e.year < d.year {
      YearsAscend(e.year, d.year);
    }
  }

  lemma SameDay(d: Date, e: Date)
    requires IsDate(d) && IsDate(e) && DayNumber(d) == DayNumber(e)
    ensures d == e
  {
    SameYear(d, e);
    hide DaysBeforeYear, DaysBeforeMonth;
    var leap := IsLeap(d.year);
    MonthLength(leap, d.month);
    MonthLength(leap, e.month);
    if d.month < e.month {
      MonthsAscend(leap, d.month, e.month);
    } else if e.month < d.month {
      MonthsAscend(leap, e.month, d.month);
    }
  }

  /** Day numbers and dates correspond one to one. */
  lemma DateOfDayNumber(d: Date)
    requires IsDate(d)
    ensures DateOf(DayNumber(d)) == d
  {
    hide DaysBeforeYear;
    SameDay(DateOf(DayNumber(d)), d);
  }

  /** Each day is followed by the next of the calendar. */
  lemma NextDay(day: int)
    ensures DateOf(day + 1) == Tomorrow(DateOf(day))
  {
    hide DateOf, DaysBeforeYear, DaysBeforeMonth, IsDate, Tomorrow;
    var d := DateOf(day);
    TomorrowNumber(d);
    DateOfDayNumber(Tomorrow(d));
  }

  /** Counting starts at January 1 of year 0. */
  lemma FirstDay(first: Date)
    requires first == Date(0, 1, 1)
    ensures DayNumber(first) == 0 && DateOf(DayNumber(first)) == first
  {
    hide DateOf, DayNumber;
    DateOfDayNumber(first);
    FirstDayNumber(first);
  }

  lemma FirstDayNumber(first: Date)
    requires first == Date(0, 1, 1)
    ensures DayNumber(first) == 0
  {
    assert DaysBeforeYear(first.year) == 0;
    hide DaysBeforeYear;
  }

  lemma TomorrowNumber(d: Date)
    requires IsDate(d)
    ensures IsDate(Tomorrow(d)) && DayNumber(Tomorrow(d)) == DayNumber(d) + 1
  {
    hide DaysBeforeYear;
    MonthLength(IsLeap(d.year), d.month);
    YearLength(d.year);
  }

  /** `t.Unix()` counts from the first instant of 1970. */
  lemma UnixEpoch(t: Instant)
    ensures Unix(DayNumber(Date(1970, 1, 1)) * 86_400_000_000_000) == 0
    ensures Unix(t + 1_000_000_000) == Unix(t) + 1
  {
    assert DayNumber(Date(1970, 1, 1)) == 719_528;
  }

  lemma FirstYear(d: int)
    requires 0 <= d < 366
    ensures DateOf(d).year == 0
  {
  }

  lemma FirstDayEncodable(t: Instant)
    requires 0 <= t < 86_400_000_000_000
    ensures Encodable(t)
  {
    hide DateOf;
    FirstYear(t / 86_400_000_000_000);
  }

  // ----- rendering -----

  function YearText(y: int): (r: string)
    ensures forall c :: c in r ==> IsDigit(c) || c == '-'
  {
    if y < 0 then "-" + Padded(-y, 4) else Padded(y, 4)
  }

  function DateText(d: Date): string {
    YearText(d.year) + "-" + Fixed(d.month, 2) + "-" + Fixed(d.day, 2)
  }

  /** hh:mm:ss for a second of the day. */
  function ClockText(s: nat): (r: string)
    ensures |r| == 8
    ensures forall c :: c in r ==> IsDigit(c) || c == ':'
  {
    Fixed(s / 3600, 2) + ":" + Fixed(s / 60 % 60, 2) + ":" + Fixed(s % 60, 2)
  }

  function TrimZeros(s: string): string {
    if s != "" && s[|s| - 1] == '0' then TrimZeros(s[..|s| - 1]) else s
  }

  /** Fractional second without trailing zeros; nothing at all on a whole second. */
  function FractionText(nanos: nat): string {
    if nanos == 0 then "" else "." + TrimZeros(Fixed(nanos, 9))
  }

  /** The time-of-day half of the rendering. */
  function TimeText(ns: nat): string {
    ClockText(ns / 1_000_000_000) + (FractionText(ns % 1_000_000_000) + "Z")
  }

  /** `t.UTC().Format(time.RFC3339Nano)` */
  function Format(t: Instant): string {
    DateText(DateOf(t / 86_400_000_000_000)) + "T" + TimeText(t % 86_400_000_000_000)
  }

  // ----- the rendering reads back -----

  /** The encoder's year range is where the year is four digits without a sign. */
  lemma EncodableMeaning(t: Instant)
    ensures Encodable(t) <==> |YearText(YearOf(t))| == 4 && forall c :: c in YearText(YearOf(t)) ==> IsDigit(c)
  {
    hide YearOf;
    var y := YearOf(t);
    if y < 0 {
      assert YearText(y)[0] == '-';
    } else {
      PaddedWidth(y);
    }
  }

  lemma TwoDigits(n: nat)
    requires n < 100
    ensures Value(Fixed(n, 2)) == n
  {
    assert Pow10(2) == 100;
    FixedReads(n, 2);
  }

  /** hh:mm:ss */
  predicate ReadsClock(text: string, second: nat) {
    && |text| == 8 && text[2] == ':' && text[5] == ':'
    && Value(text[..2]) * 3600 + Value(text[3..5]) * 60 + Value(text[6..]) == second
    && Value(text[3..5]) < 60 && Value(text[6..]) < 60
  }

  lemma ClockOf(a: string, b: string, c: string, h: nat, m: nat, s: nat)
    requires |a| == |b| == |c| == 2 && Value(a) == h && Value(b) == m < 60 && Value(c) == s < 60
    ensures ReadsClock(a + ":" + b + ":" + c, h * 3600 + m * 60 + s)
  {
    hide Value;
    var text := a + ":" + b + ":" + c;
    assert text[..2] == a && text[3..5] == b && text[6..] == c;
  }

  lemma ClockReads(second: nat)
    requires second < 86_400
    ensures ReadsClock(ClockText(second), second)
  {
    hide ReadsClock, Value;
    var h, m, s := second / 3600, second / 60 % 60, second % 60;
    HoursMinutesSeconds(second);
    TwoDigits(h);
    TwoDigits(m);
    TwoDigits(s);
    ClockOf(Fixed(h, 2), Fixed(m, 2), Fixed(s, 2), h, m, s);
  }

  /** Nothing on a whole second, otherwise a point and up to nine digits, the last not 0. */
  predicate ReadsFraction(text: string, nanos: nat) {
    if nanos == 0 then text == ""
    else
      && 2 <= |text| <= 10 && text[0] == '.' && text[|text| - 1] != '0'
      && Value(text[1..]) * Pow10(10 - |text|) == nanos
  }

  lemma {:induction false} ValueOfShifted(s: string, k: nat)
    ensures Value(s + Zeros(k)) == Value(s) * Pow10(k)
  {
    if k == 0 {
      assert s + Zeros(0) == s;
    } else {
      assert (s + Zeros(k))[..|s| + k - 1] == s + Zeros(k - 1);
      ValueOfShifted(s, k - 1);
    }
  }

  lemma {:induction false} TrimEnds(s: string)
    ensures TrimZeros(s) != "" ==> TrimZeros(s)[|TrimZeros(s)| - 1] != '0'
  {
    if s != "" && s[|s| - 1] == '0' {
      TrimEnds(s[..|s| - 1]);
    }
  }

  lemma KeptDigits(nanos: nat)
    requires 0 < nanos < 1_000_000_000
    ensures var kept := TrimZeros(Fixed(nanos, 9));
      0 < |kept| <= 9 && kept[|kept| - 1] != '0' && Value(kept) * Pow10(9 - |kept|) == nanos
  {
    Billion();
    FixedReads(nanos, 9);
    hide Fixed, Pow10;
    TrimmedValue(Fixed(nanos, 9));
  }

  lemma TrimmedValue(digits: string)
    ensures var kept := TrimZeros(digits);
      && |kept| <= |digits| && Value(kept) * Pow10(|digits| - |kept|) == Value(digits)
      && (Value(digits) > 0 ==> kept != "")
      && (kept != "" ==> kept[|kept| - 1] != '0')
  {
    TrimSplits(digits);
    TrimEnds(digits);
    ValueOfShifted(TrimZeros(digits), |digits| - |TrimZeros(digits)|);
    hide TrimZeros, Pow10;
  }

  lemma FractionReads(nanos: nat)
    requires nanos < 1_000_000_000
    ensures ReadsFraction(FractionText(nanos), nanos)
  {
    if nanos > 0 {
      KeptDigits(nanos);
      hide Fixed, TrimZeros, Pow10, Value, ReadsFraction;
      PointAndDigits(TrimZeros(Fixed(nanos, 9)), nanos);
    }
  }

  lemma PointAndDigits(kept: string, nanos: nat)
    requires nanos > 0 && 0 < |kept| <= 9 && kept[|kept| - 1] != '0' && Value(kept) * Pow10(9 - |kept|) == nanos
    ensures ReadsFraction("." + kept, nanos)
  {
    hide Pow10, Value;
    assert ("." + kept)[1..] == kept;
  }

  predicate ReadsDate(text: string, d: Date) {
    && |text| == 10 && text[4] == '-' && text[7] == '-'
    && Value(text[..4]) == d.year && Value(text[5..7]) == d.month && Value(text[8..]) == d.day
  }

  lemma DateReads(d: Date)
    requires 0 <= d.year <= 9999 && IsDate(d)
    ensures ReadsDate(DateText(d), d) && |DateText(d)| == 10
  {
    PaddedWidth(d.year);
    ValueOfPadded(d.year, 4);
    TwoDigits(d.month);
    TwoDigits(d.day);
    hide Value, ReadsDate, IsLeap;
    DateOfTexts(Padded(d.year, 4), Fixed(d.month, 2), Fixed(d.day, 2), d);
  }

  lemma DateOfTexts(y: string, m: string, n: string, d: Date)
    requires |y| == 4 && |m| == |n| == 2 && Value(y) == d.year && Value(m) == d.month && Value(n) == d.day
    ensures ReadsDate(y + "-" + m + "-" + n, d)
  {
    hide Value;
    var text := y + "-" + m + "-" + n;
    assert text[..4] == y && text[5..7] == m && text[8..] == n;
  }

  /** A date, a second of the day and a fraction, each readable at its place. */
  predicate ReadsInstant(text: string, d: Date, second: nat, nanos: nat) {
    && |text| >= 20 && text[10] == 'T' && text[|text| - 1] == 'Z'
    && ReadsDate(text[..10], d) && ReadsClock(text[11..19], second) && ReadsFraction(text[19..|text| - 1], nanos)
  }

  /** The text of a four-digit year, cut at its fixed places, reads back as the date, the second and the fraction. */
  lemma FormatReadsBack(t: Instant)
    requires Encodable(t)
    ensures var ns := t % 86_400_000_000_000;
      ReadsInstant(Format(t), DateOf(t / 86_400_000_000_000), ns / 1_000_000_000, ns % 1_000_000_000)
  {
    hide DateOf, ReadsInstant, DateText, ClockText, FractionText, MonthDays, IsLeap;
    var ns := t % 86_400_000_000_000;
    PartsRead(DateOf(t / 86_400_000_000_000), ns / 1_000_000_000, ns % 1_000_000_000);
  }

  lemma PartsRead(d: Date, second: nat, nanos: nat)
    requires 0 <= d.year <= 9999 && IsDate(d) && second < 86_400 && nanos < 1_000_000_000
    ensures ReadsInstant(DateText(d) + "T" + (ClockText(second) + (FractionText(nanos) + "Z")), d, second, nanos)
  {
    DateReads(d);
    ClockReads(second);
    FractionReads(nanos);
    CutText(DateText(d), ClockText(second), FractionText(nanos));
    hide ReadsClock, ReadsFraction, DateText, ClockText, FractionText, IsDate;
  }

  lemma CutText(date: string, clock: string, fraction: string)
    requires |date| == 10 && |clock| == 8
    ensures var text := date + "T" + (clock + (fraction + "Z"));
      && |text| >= 20 && text[10] == 'T' && text[|text| - 1] == 'Z'
      && text[..10] == date && text[11..19] == clock && text[19..|text| - 1] == fraction
  {
  }

  // ----- the rendering is injective -----

  lemma {:induction false} TrimSplits(s: string)
    ensures |TrimZeros(s)| <= |s|
    ensures s == TrimZeros(s) + Zeros(|s| - |TrimZeros(s)|)
  {
    if s != "" && s[|s| - 1] == '0' {
      TrimSplits(s[..|s| - 1]);
      assert s == s[..|s| - 1] + ['0'];
    }
  }

  lemma {:induction false} TrimChars(s: string)
    requires forall c :: c in s ==> IsDigit(c)
    ensures forall c :: c in TrimZeros(s) ==> IsDigit(c)
  {
    TrimSplits(s);
    assert forall c :: c in TrimZeros(s) ==> c in s;
  }

  lemma FractionInjective(m: nat, n: nat)
    requires m < 1_000_000_000 && n < 1_000_000_000 && FractionText(m) == FractionText(n)
    ensures m == n
  {
    if m != 0 {
      assert FractionText(m)[1..] == FractionText(n)[1..];
      TrimInjective(Fixed(m, 9), Fixed(n, 9));
      Billion();
      FixedInjective(m, n, 9);
    }
  }

  lemma TrimInjective(s: string, t: string)
    requires |s| == |t| && TrimZeros(s) == TrimZeros(t)
    ensures s == t
  {
    TrimSplits(s);
    TrimSplits(t);
  }

  lemma Billion()
    ensures Pow10(9) == 1_000_000_000
  {
  }

  lemma FixedFields(m: nat, n: nat)
    requires m < 100 && n < 100 && Fixed(m, 2) == Fixed(n, 2)
    ensures m == n
  {
    assert Pow10(2) == 100;
    FixedInjective(m, n, 2);
  }

  lemma ClockInjective(m: nat, n: nat)
    requires m < 86_400 && n < 86_400 && ClockText(m) == ClockText(n)
    ensures m == n
  {
    var h, i, s := Fixed(m / 3600, 2), Fixed(m / 60 % 60, 2), Fixed(m % 60, 2);
    var h', i', s' := Fixed(n / 3600, 2), Fixed(n / 60 % 60, 2), Fixed(n % 60, 2);
    assert h == ClockText(m)[..2] == ClockText(n)[..2] == h';
    assert i == ClockText(m)[3..5] == ClockText(n)[3..5] == i';
    assert s == ClockText(m)[6..] == ClockText(n)[6..] == s';
    FixedFields(m / 3600, n / 3600);
    FixedFields(m / 60 % 60, n / 60 % 60);
    FixedFields(m % 60, n % 60);
    HoursMinutesSeconds(m);
    HoursMinutesSeconds(n);
  }

  lemma HoursMinutesSeconds(m: nat)
    ensures m == 3600 * (m / 3600) + 60 * (m / 60 % 60) + m % 60
  {
    assert m / 3600 == m / 60 / 60;
  }

  lemma SameTail(s: string, t: string)
    requires "-" + s == "-" + t
    ensures s == t
  {
    assert s == ("-" + s)[1..] == ("-" + t)[1..] == t;
  }

  lemma YearTextInjective(y: int, z: int)
    requires YearText(y) == YearText(z)
    ensures y == z
  {
    YearSign(y);
    YearSign(z);
    if y < 0 {
      SameTail(Padded(-y, 4), Padded(-z, 4));
      PaddedInjective(-y, -z, 4);
    } else {
      PaddedInjective(y, z, 4);
    }
  }

  lemma YearSign(y: int)
    ensures YearText(y) != "" && (YearText(y)[0] == '-' <==> y < 0)
  {
    if y >= 0 {
      assert YearText(y)[0] in Padded(y, 4);
    }
  }

  lemma FixedTail(a: string, b: string, c: string, a': string, b': string, c': string)
    requires |b| == |b'| == 2 && |c| == |c'| == 2
    requires a + "-" + b + "-" + c == a' + "-" + b' + "-" + c'
    ensures a == a' && b == b' && c == c'
  {
    var s, n := a + "-" + b + "-" + c, |a|;
    assert |a'| == n;
    assert a == s[..n] == a' && b == s[n + 1..n + 3] == b' && c == s[n + 4..] == c';
  }

  lemma DateTextInjective(d: Date, e: Date)
    requires d.month < 100 && d.day < 100 && e.month < 100 && e.day < 100
    requires DateText(d) == DateText(e)
    ensures d == e
  {
    FixedTail(YearText(d.year), Fixed(d.month, 2), Fixed(d.day, 2), YearText(e.year), Fixed(e.month, 2), Fixed(e.day, 2));
    YearTextInjective(d.year, e.year);
    FixedFields(d.month, e.month);
    FixedFields(d.day, e.day);
  }

  lemma JoinedChars(a: string, b: string, c: string, absent: char)
    requires absent !in a && absent !in b && absent !in c && absent != '-'
    ensures absent !in a + "-" + b + "-" + c
  {
  }

  lemma DateTextChars(d: Date)
    ensures 'T' !in DateText(d) && '|' !in DateText(d) && '\n' !in DateText(d)
  {
    var y, m, n := YearText(d.year), Fixed(d.month, 2), Fixed(d.day, 2);
    JoinedChars(y, m, n, 'T');
    JoinedChars(y, m, n, '|');
    JoinedChars(y, m, n, '\n');
  }

  lemma TimeTextInjective(m: nat, n: nat)
    requires m < 86_400_000_000_000 && n < 86_400_000_000_000 && TimeText(m) == TimeText(n)
    ensures m == n
  {
    var c, d := ClockText(m / 1_000_000_000), ClockText(n / 1_000_000_000);
    var f, g := FractionText(m % 1_000_000_000), FractionText(n % 1_000_000_000);
    assert c == TimeText(m)[..8] == TimeText(n)[..8] == d;
    assert f + "Z" == TimeText(m)[8..] == TimeText(n)[8..] == g + "Z";
    assert f == (f + "Z")[..|f|] && g == (g + "Z")[..|g|];
    ClockInjective(m / 1_000_000_000, n / 1_000_000_000);
    FractionInjective(m % 1_000_000_000, n % 1_000_000_000);
  }

  lemma FractionChars(nanos: nat)
    ensures forall c :: c in FractionText(nanos) ==> IsDigit(c) || c == '.'
  {
    TrimChars(Fixed(nanos, 9));
  }

  lemma TimeTextChars(ns: nat)
    ensures '|' !in TimeText(ns) && '\n' !in TimeText(ns)
  {
    FractionChars(ns % 1_000_000_000);
  }

  lemma FormatChars(t: Instant)
    ensures '|' !in Format(t) && '\n' !in Format(t)
  {
    DateTextChars(DateOf(t / 86_400_000_000_000));
    TimeTextChars(t % 86_400_000_000_000);
  }

  /** Two instants with the same rendering are the same instant, in any year, before year 0 included. */
  lemma FormatInjective(t: Instant, u: Instant)
    requires Format(t) == Format(u)
    ensures t == u
  {
    hide DateOf, DateText, TimeText;
    PartsInjective(t / 86_400_000_000_000, t % 86_400_000_000_000, u / 86_400_000_000_000, u % 86_400_000_000_000);
    DayAndTime(t);
    DayAndTime(u);
  }

  lemma SmallFields(d: Date)
    requires IsDate(d)
    ensures d.month < 100 && d.day < 100
  {
  }

  lemma PartsInjective(d: int, m: nat, e: int, n: nat)
    requires m < 86_400_000_000_000 && n < 86_400_000_000_000
    requires DateText(DateOf(d)) + "T" + TimeText(m) == DateText(DateOf(e)) + "T" + TimeText(n)
    ensures d == e && m == n
  {
    SmallFields(DateOf(d));
    SmallFields(DateOf(e));
    hide DateText, TimeText, IsDate, IsLeap, DaysBeforeYear, DaysBeforeMonth;
    DateTextChars(DateOf(d));
    DateTextChars(DateOf(e));
    SplitAtFirst(DateText(DateOf(d)), TimeText(m), DateText(DateOf(e)), TimeText(n), 'T');
    DateTextInjective(DateOf(d), DateOf(e));
    DateDeterminesDay(d, e);
    TimeTextInjective(m, n);
  }

  lemma DayAndTime(t: Instant)
    ensures t == 86_400_000_000_000 * (t / 86_400_000_000_000) + t % 86_400_000_000_000
  {
  }

  lemma DateDeterminesDay(d: int, e: int)
    requires DateOf(d) == DateOf(e)
    ensures d == e
  {
  }
}
