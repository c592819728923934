/**
 * Dates of the proleptic Gregorian calendar, counted in days from
 * 1970-01-01 as java.time.LocalDate counts them (toEpochDay/ofEpochDay),
 * and their ISO 8601 calendar-date text as DateTimeFormatter.ISO_LOCAL_DATE
 * writes it.
 */
module CivilDate {
  import opened Wrappers

  datatype Date = Date(year: int, month: int, day: int)

  predicate IsLeapYear(y: int) {
    y % 4 == 0 && (y % 100 != 0 || y % 400 == 0)
  }

  function YearLength(y: int): int {
    if IsLeapYear(y) then 366 else 365
  }

  function MonthLength(y: int, m: int): int
    requires 1 <= m <= 12
  {
    if m == 2 then (if IsLeapYear(y) then 29 else 28)
    else if m == 4 || m == 6 || m == 9 || m == 11 then 30
    else 31
  }

  predicate Valid(d: Date) {
    1 <= d.month <= 12 && 1 <= d.day <= MonthLength(d.year, d.month)
  }

  /** Days from 0000-01-01 to the first of January of year y (floor division, so any y). */
  function DaysBeforeYear(y: int): int {
    365 * y + (y + 3) / 4 - (y + 99) / 100 + (y + 399) / 400
  }

  /** Days from the first of January of year y to the first day of month m. */
  function DaysBeforeMonth(y: int, m: int): int
    requires 1 <= m <= 12
  {
    (if m > 2 && IsLeapYear(y) then 1 else 0) +
    (if m == 1 then 0 else if m == 2 then 31 else if m == 3 then 59
     else if m == 4 then 90 else if m == 5 then 120 else if m == 6 then 151
     else if m == 7 then 181 else if m == 8 then 212 else if m == 9 then 243
     else if m == 10 then 273 else if m == 11 then 304 else 334)
  }

  /** Days from 1970-01-01 to the date (LocalDate.toEpochDay). */
  function EpochDay(d: Date): int
    requires 1 <= d.month <= 12
  {
    DaysBeforeYear(d.year) + DaysBeforeMonth(d.year, d.month) + d.day - 1 - DaysBeforeYear(1970)
  }

  /** The calendar day after d. */
  function NextDay(d: Date): Date
    requires Valid(d)
  {
    if d.day < MonthLength(d.year, d.month) then Date(d.year, d.month, d.day + 1)
    else if d.month < 12 then Date(d.year, d.month + 1, 1)
    else Date(d.year + 1, 1, 1)
  }

  /** Stepping past y adds one to the floor of y/k exactly when k divides y, for k = 4, 100, 400. */
  lemma FloorSteps(y: int)
    ensures (y + 4) / 4 - (y + 3) / 4 == if y % 4 == 0 then 1 else 0
    ensures (y + 100) / 100 - (y + 99) / 100 == if y % 100 == 0 then 1 else 0
    ensures (y + 400) / 400 - (y + 399) / 400 == if y % 400 == 0 then 1 else 0
  {
    assert (y + 4) / 4 - (y + 3) / 4 == if y % 4 == 0 then 1 else 0 by {
      var q, r := y / 4, y % 4;
      assert y == 4 * q + r && 0 <= r < 4;
      assert (y + 4) / 4 == q + 1;
      assert (y + 3) / 4 == if r == 0 then q else q + 1;
    }
    assert (y + 100) / 100 - (y + 99) / 100 == if y % 100 == 0 then 1 else 0 by {
      var q, r := y / 100, y % 100;
      assert y == 100 * q + r && 0 <= r < 100;
      assert (y + 100) / 100 == q + 1;
      assert (y + 99) / 100 == if r == 0 then q else q + 1;
    }
    assert (y + 400) / 400 - (y + 399) / 400 == if y % 400 == 0 then 1 else 0 by {
      var q, r := y / 400, y % 400;
      assert y == 400 * q + r && 0 <= r < 400;
      assert (y + 400) / 400 == q + 1;
      assert (y + 399) / 400 == if r == 0 then q else q + 1;
    }
  }

  lemma DaysBeforeYearStep(y: int)
    ensures DaysBeforeYear(y + 1) == DaysBeforeYear(y) + YearLength(y)
  {
    FloorSteps(y);
    DivisibilityChain(y);
    var a, b, c := (y + 4) / 4 - (y + 3) / 4, (y + 100) / 100 - (y + 99) / 100, (y + 400) / 400 - (y + 399) / 400;
    assert DaysBeforeYear(y + 1) - DaysBeforeYear(y) == 365 + a - b + c;
  }

  lemma DivisibilityChain(y: int)
    ensures y % 400 == 0 ==> y % 100 == 0
    ensures y % 100 == 0 ==> y % 4 == 0
  {
    if y % 400 == 0 {
      MultipleOf(y / 400 * 4, 100);
      assert y == y / 400 * 4 * 100;
    }
    if y % 100 == 0 {
      MultipleOf(y / 100 * 25, 4);
      assert y == y / 100 * 25 * 4;
    }
  }

  lemma MultipleOf(p: int, k: int)
    requires k == 4 || k == 100
    ensures (p * k) % k == 0
  {
    assert p * k == k * p + 0;
  }

  /** A 400-year era holds 146097 days, so eras start at multiples of 146097. */
  lemma EraStart(era: int)
    ensures DaysBeforeYear(400 * era) == 146097 * era
  {
    assert 400 * era + 3 == 4 * (100 * era) + 3;
    assert (400 * era + 3) / 4 == 100 * era;
    assert 400 * era + 99 == 100 * (4 * era) + 99;
    assert (400 * era + 99) / 100 == 4 * era;
    assert (400 * era + 399) / 400 == era;
  }

  lemma {:induction false} DaysBeforeYearMonotone(a: int, b: int)
    requires a < b
    ensures DaysBeforeYear(a) + YearLength(a) <= DaysBeforeYear(b)
    decreases b - a
  {
    DaysBeforeYearStep(a);
    if a + 1 < b {
      DaysBeforeYearMonotone(a + 1, b);
    }
  }

  lemma MonthsAreOrdered(y: int, m1: int, m2: int)
    requires 1 <= m1 < m2 <= 12
    ensures DaysBeforeMonth(y, m1) + MonthLength(y, m1) <= DaysBeforeMonth(y, m2)
  {
  }

  /** A valid date lies inside its year. */
  lemma DayWithinYear(d: Date)
    requires Valid(d)
    ensures 0 <= DaysBeforeMonth(d.year, d.month) + d.day - 1 < YearLength(d.year)
  {
    if d.month < 12 {
      MonthsAreOrdered(d.year, d.month, 12);
    }
  }

  /** The year starting dayOfYear days into year y, and the day within it. */
  function LocateYear(dayOfYear: nat, y: int): (p: (int, nat))
    ensures p.0 >= y && p.1 < YearLength(p.0)
    ensures DaysBeforeYear(p.0) + p.1 == DaysBeforeYear(y) + dayOfYear
    decreases dayOfYear
  {
    if dayOfYear < YearLength(y) then (y, dayOfYear)
    else
      DaysBeforeYearStep(y);
      LocateYear(dayOfYear - YearLength(y), y + 1)
  }

  /** The date `rest` days after the first day of month m of year y. */
  function LocateMonth(y: int, m: int, rest: nat): (d: Date)
    requires 1 <= m <= 12
    requires DaysBeforeMonth(y, m) + rest < YearLength(y)
    ensures Valid(d) && d.year == y
    ensures DaysBeforeMonth(y, d.month) + d.day - 1 == DaysBeforeMonth(y, m) + rest
    decreases 12 - m
  {
    if rest < MonthLength(y, m) then Date(y, m, rest + 1)
    else LocateMonth(y, m + 1, rest - MonthLength(y, m))
  }

  /** The date epochDay days after 1970-01-01 (LocalDate.ofEpochDay). */
  function OfEpochDay(epochDay: int): (d: Date)
    ensures Valid(d) && EpochDay(d) == epochDay
  {
    var z := epochDay + DaysBeforeYear(1970);
    var era := z / 146097;
    EraStart(era);
    var p := LocateYear(z - 146097 * era, 400 * era);
    LocateMonth(p.0, 1, p.1)
  }

  /** Distinct valid dates have distinct day numbers. */
  lemma EpochDayInjective(a: Date, b: Date)
    requires Valid(a) && Valid(b) && EpochDay(a) == EpochDay(b)
    ensures a == b
  {
    if a.year < b.year {
      DaysBeforeYearMonotone(a.year, b.year);
    } else if b.year < a.year {
      DaysBeforeYearMonotone(b.year, a.year);
    } else if a.month < b.month {
      MonthsAreOrdered(a.year, a.month, b.month);
    } else if b.month < a.month {
      MonthsAreOrdered(a.year, b.month, a.month);
    }
  }

  lemma OfEpochDayRoundTrip(d: Date)
    requires Valid(d)
    ensures OfEpochDay(EpochDay(d)) == d
  {
    EpochDayInjective(OfEpochDay(EpochDay(d)), d);
  }

  lemma NextDayAdvances(d: Date)
    requires Valid(d)
    ensures Valid(NextDay(d)) && EpochDay(NextDay(d)) == EpochDay(d) + 1
  {
    if d.day == MonthLength(d.year, d.month) && d.month == 12 {
      DaysBeforeYearStep(d.year);
    }
  }

  /** Counting one day further gives the next calendar day. */
  lemma OfEpochDaySuccessor(epochDay: int)
    ensures OfEpochDay(epochDay + 1) == NextDay(OfEpochDay(epochDay))
  {
    NextDayAdvances(OfEpochDay(epochDay));
    EpochDayInjective(OfEpochDay(epochDay + 1), NextDay(OfEpochDay(epochDay)));
  }

  // ---------------------------------------------------------------------
  // ISO 8601 calendar-date text (DateTimeFormatter.ISO_LOCAL_DATE)
  // ---------------------------------------------------------------------

  predicate IsDigit(c: char) { '0' <= c <= '9' }

  predicate AllDigits(s: string) { forall i :: 0 <= i < |s| ==> IsDigit(s[i]) }

  function DigitChar(n: nat): (c: char)
    requires n < 10
    ensures IsDigit(c) && c as int - '0' as int == n
  {
    (n + '0' as int) as char
  }

  /** Shortest decimal text of n. */
  function Digits(n: nat): (s: string)
    ensures 1 <= |s| && AllDigits(s)
  {
    if n < 10 then [DigitChar(n)] else Digits(n / 10) + [DigitChar(n % 10)]
  }

  /** s preceded by enough zeros to be width characters long. */
  function ZeroPad(s: string, width: nat): (r: string)
    ensures |r| == if |s| < width then width else |s|
    ensures AllDigits(s) ==> AllDigits(r)
  {
    seq(if |s| < width then width - |s| else 0, _ => '0') + s
  }

  /** The value of a string of decimal digits. */
  function DecimalValue(s: string): nat
    requires AllDigits(s)
  {
    if |s| == 0 then 0
    else DecimalValue(s[..|s| - 1]) * 10 + (s[|s| - 1] as int - '0' as int)
  }

  /** The year field: four digits at least, a sign when negative or longer than four digits. */
  function YearText(y: int): string {
    if y > 9999 then "+" + Digits(y)
    else if y >= 0 then ZeroPad(Digits(y), 4)
    else "-" + ZeroPad(Digits(-y), 4)
  }

  function FormatIsoDate(d: Date): string {
    YearText(d.year) + "-" + ZeroPad(Digits(if d.month < 0 then 0 else d.month), 2) + "-"
      + ZeroPad(Digits(if d.day < 0 then 0 else d.day), 2)
  }

  /** Reads back a `YYYY-MM-DD` text. */
  function ParseIsoDate(s: string): Option<Date> {
    if |s| == 10 && s[4] == '-' && s[7] == '-'
       && AllDigits(s[..4]) && AllDigits(s[5..7]) && AllDigits(s[8..])
    then Some(Date(DecimalValue(s[..4]), DecimalValue(s[5..7]), DecimalValue(s[8..])))
    else None
  }

  lemma {:induction false} DecimalValueOfDigits(n: nat)
    ensures DecimalValue(Digits(n)) == n
  {
    var s := Digits(n);
    if n >= 10 {
      DecimalValueOfDigits(n / 10);
      assert s[..|s| - 1] == Digits(n / 10);
    }
  }

  lemma {:induction false} LeadingZerosAddNothing(k: nat, s: string)
    requires AllDigits(s)
    ensures AllDigits(seq(k, _ => '0') + s)
    ensures DecimalValue(seq(k, _ => '0') + s) == DecimalValue(s)
    decreases |s|, k
  {
    var t := seq(k, _ => '0') + s;
    if |s| == 0 {
      if k > 0 {
        assert t[..|t| - 1] == seq(k - 1, _ => '0') + s;
        LeadingZerosAddNothing(k - 1, s);
      }
    } else {
      assert t[..|t| - 1] == seq(k, _ => '0') + s[..|s| - 1];
      LeadingZerosAddNothing(k, s[..|s| - 1]);
    }
  }

  lemma {:induction false} DigitsLength(n: nat, width: nat, bound: nat)
    requires 1 <= width && n < bound
    requires bound == if width == 1 then 10 else if width == 2 then 100 else if width == 3 then 1000 else 10000
    requires width <= 4
    ensures |Digits(n)| <= width
  {
    if n >= 10 {
      var b := if width == 2 then 10 else if width == 3 then 100 else 1000;
      DigitsLength(n / 10, width - 1, b);
    }
  }

  lemma PaddedValue(n: nat, width: nat, bound: nat)
    requires 1 <= width <= 4 && n < bound
    requires bound == if width == 1 then 10 else if width == 2 then 100 else if width == 3 then 1000 else 10000
    ensures |ZeroPad(Digits(n), width)| == width
    ensures AllDigits(ZeroPad(Digits(n), width))
    ensures DecimalValue(ZeroPad(Digits(n), width)) == n
  {
    DigitsLength(n, width, bound);
    LeadingZerosAddNothing(width - |Digits(n)|, Digits(n));
    DecimalValueOfDigits(n);
  }

  /** Dates with a four-digit year are written as ten characters and read back unchanged. */
  lemma IsoDateRoundTrip(d: Date)
    requires Valid(d) && 0 <= d.year <= 9999
    ensures |FormatIsoDate(d)| == 10
    ensures ParseIsoDate(FormatIsoDate(d)) == Some(d)
  {
    var y := ZeroPad(Digits(d.year), 4);
    var m := ZeroPad(Digits(d.month), 2);
    var dd := ZeroPad(Digits(d.day), 2);
    PaddedValue(d.year, 4, 10000);
    PaddedValue(d.month, 2, 100);
    PaddedValue(d.day, 2, 100);
    var s := FormatIsoDate(d);
    assert s == y + "-" + m + "-" + dd;
    assert s[..4] == y;
    assert s[5..7] == m;
    assert s[8..] == dd;
  }
}
