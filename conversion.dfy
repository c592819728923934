/**
 * The value-level conversions of DoUpload: removeFraction, excelDateToDate
 * and the literal chosen for one destination column.
 */
module Conversion {
  import opened Wrappers
  import opened Strings
  import opened CivilDate
  import opened Sheet

  // ---------------------------------------------------------------------
  // removeFraction
  // ---------------------------------------------------------------------

  /** The text before the first '.', or the whole text when it has none. */
  function RemoveFraction(number: string): (r: string)
    ensures '.' !in r
    ensures |r| <= |number| && r == number[..|r|]
    ensures '.' !in number ==> r == number
    ensures '.' in number ==> |r| < |number| && number[|r|] == '.'
  {
    var posDot := IndexOf(number, '.');
    if posDot == -1 then number else number[..posDot]
  }

  lemma RemoveFractionIdempotent(number: string)
    ensures RemoveFraction(RemoveFraction(number)) == RemoveFraction(number)
  {
  }

  // ---------------------------------------------------------------------
  // excelDateToDate
  // ---------------------------------------------------------------------

  const MsPerDay: int := 24 * 3600 * 1000

  /** The spreadsheet's day 0, 1899-12-31, in days from 1970-01-01. */
  const BaseTime: int := EpochDay(Date(1899, 12, 31))

  const Feb28_1900: Date := Date(1900, 2, 28)

  /** Serial day number of 1900-02-28; later serials count the fictitious 1900-02-29. */
  const Feb28_1900_NumDays: int := EpochDay(Feb28_1900) - BaseTime

  lemma EpochConstants()
    ensures BaseTime == -25568
    ensures Feb28_1900_NumDays == 59
  {
  }

  /**
   * The calendar date of a serial day number of the 1900 date system:
   * days counted from 1899-12-31, one day taken off every serial past
   * 1900-02-28, then the day number turned into milliseconds from
   * 1970-01-01 and back into a UTC date.
   */
  function SerialToDate(numberOfDays: int): (d: Date)
    ensures Valid(d)
    ensures EpochDay(d) == BaseTime + numberOfDays - (if numberOfDays > 59 then 1 else 0)
  {
    EpochConstants();
    var corrected := if numberOfDays > Feb28_1900_NumDays then numberOfDays - 1 else numberOfDays;
    var epochDay := corrected + BaseTime;
    var javaDateValue := epochDay * MsPerDay;
    assert javaDateValue == MsPerDay * epochDay + 0;
    assert javaDateValue / MsPerDay == epochDay;
    OfEpochDay(javaDateValue / MsPerDay)
  }

  /** excelDateToDate, from the serial's whole days on: the ISO 8601 date of SerialToDate. */
  function ExcelDateToDate(numberOfDays: int): string {
    FormatIsoDate(SerialToDate(numberOfDays))
  }

  /**
   * Serial 59 and serial 60 are both 1900-02-28; from one serial to the next
   * the date otherwise advances by exactly one calendar day.
   */
  lemma SerialToDateStep(n: int)
    ensures SerialToDate(n + 1) == if n == 59 then SerialToDate(n) else NextDay(SerialToDate(n))
  {
    var d := SerialToDate(n);
    if n != 59 {
      NextDayAdvances(d);
      EpochDayInjective(SerialToDate(n + 1), NextDay(d));
    } else {
      EpochDayInjective(SerialToDate(n + 1), d);
    }
  }

  /** SerialToDate is the one valid date whose day number is the corrected serial. */
  lemma SerialToDateIs(n: int, d: Date)
    requires Valid(d) && EpochDay(d) == BaseTime + n - (if n > 59 then 1 else 0)
    ensures SerialToDate(n) == d
  {
    EpochDayInjective(SerialToDate(n), d);
  }

  /** Serial 0 is the epoch 1899-12-31 and serial 1 is 1900-01-01. */
  lemma SerialEpoch(n: int)
    requires 0 <= n <= 1
    ensures SerialToDate(n) == if n == 0 then Date(1899, 12, 31) else Date(1900, 1, 1)
    ensures ExcelDateToDate(n) == if n == 0 then "1899-12-31" else "1900-01-01"
  {
    EpochConstants();
    var d := if n == 0 then Date(1899, 12, 31) else Date(1900, 1, 1);
    SerialToDateIs(n, d);
    IsoText(d, if n == 0 then "1899-12-31" else "1900-01-01");
  }

  /**
   * The dates around the leap-year defect of the 1900 date system: serials 59
   * and 60 are both 1900-02-28, serial 61 is 1900-03-01.
   */
  lemma LeapYearBoundary(n: int)
    requires 59 <= n <= 61
    ensures SerialToDate(n) == if n == 61 then Date(1900, 3, 1) else Date(1900, 2, 28)
    ensures ExcelDateToDate(n) == if n == 61 then "1900-03-01" else "1900-02-28"
  {
    EpochConstants();
    var d := if n == 61 then Date(1900, 3, 1) else Date(1900, 2, 28);
    SerialToDateIs(n, d);
    IsoText(d, if n == 61 then "1900-03-01" else "1900-02-28");
  }

  lemma IsoText(d: Date, s: string)
    requires d == Date(1899, 12, 31) || d == Date(1900, 1, 1) || d == Date(1900, 2, 28) || d == Date(1900, 3, 1)
    requires s == if d == Date(1899, 12, 31) then "1899-12-31" else if d == Date(1900, 1, 1) then "1900-01-01"
      else if d == Date(1900, 2, 28) then "1900-02-28" else "1900-03-01"
    ensures FormatIsoDate(d) == s
  {
    if d == Date(1899, 12, 31) {
      LastDayOf1899();
    } else if d == Date(1900, 1, 1) {
      FirstDayOf1900();
    } else if d == Date(1900, 2, 28) {
      LastDayOfFebruary1900();
    } else {
      FirstDayOfMarch1900();
    }
  }

  lemma LastDayOf1899()
    ensures FormatIsoDate(Date(1899, 12, 31)) == "1899-12-31"
  {
    YearDigits();
    assert Digits(12) == Digits(1) + [DigitChar(2)] == "12";
    assert Digits(31) == Digits(3) + [DigitChar(1)] == "31";
    assert ZeroPad("12", 2) == "12" && ZeroPad("31", 2) == "31";
  }

  lemma FirstDayOf1900()
    ensures FormatIsoDate(Date(1900, 1, 1)) == "1900-01-01"
  {
    YearDigits();
    OneDigitPadded(1);
  }

  lemma LastDayOfFebruary1900()
    ensures FormatIsoDate(Date(1900, 2, 28)) == "1900-02-28"
  {
    YearDigits();
    OneDigitPadded(2);
    assert Digits(28) == Digits(2) + [DigitChar(8)] == "28";
    assert ZeroPad("28", 2) == "28";
  }

  lemma FirstDayOfMarch1900()
    ensures FormatIsoDate(Date(1900, 3, 1)) == "1900-03-01"
  {
    YearDigits();
    OneDigitPadded(3);
    OneDigitPadded(1);
  }

  /** The year fields of 1899 and 1900. */
  lemma YearDigits()
    ensures YearText(1899) == "1899" && YearText(1900) == "1900"
  {
    assert Digits(18) == Digits(1) + [DigitChar(8)] == "18";
    assert Digits(189) == Digits(18) + [DigitChar(9)] == "189";
    assert Digits(1899) == Digits(189) + [DigitChar(9)] == "1899";
    assert Digits(19) == Digits(1) + [DigitChar(9)] == "19";
    assert Digits(190) == Digits(19) + [DigitChar(0)] == "190";
    assert Digits(1900) == Digits(190) + [DigitChar(0)] == "1900";
    assert ZeroPad("1899", 4) == "1899" && ZeroPad("1900", 4) == "1900";
  }

  /** A one-digit month or day is written with a leading zero. */
  lemma OneDigitPadded(n: int)
    requires 1 <= n <= 3
    ensures ZeroPad(Digits(n), 2) == ['0', DigitChar(n)]
  {
    assert Digits(n) == [DigitChar(n)];
  }

  /** Serials 1 to 2958465 are the dates 1900-01-01 to 9999-12-31. */
  lemma SerialYearRange(n: int)
    requires 1 <= n <= 2958465
    ensures 1900 <= SerialToDate(n).year <= 9999
  {
    var d := SerialToDate(n);
    EpochConstants();
    DayWithinYear(d);
    var z := EpochDay(d) + DaysBeforeYear(1970);
    assert DaysBeforeYear(1970) == 719528;
    assert DaysBeforeYear(1900) == 693961 && DaysBeforeYear(10000) == 3652425;
    assert DaysBeforeYear(1900) <= z < DaysBeforeYear(10000);
    if d.year < 1900 {
      DaysBeforeYearMonotone(d.year, 1900);
    } else if d.year > 10000 {
      DaysBeforeYearMonotone(10000, d.year);
    }
  }

  /** The text excelDateToDate writes for such a serial is a YYYY-MM-DD date that reads back as SerialToDate. */
  lemma ExcelDateToDateReadsBack(n: int)
    requires 1 <= n <= 2958465
    ensures |ExcelDateToDate(n)| == 10
    ensures ParseIsoDate(ExcelDateToDate(n)) == Some(SerialToDate(n))
  {
    SerialYearRange(n);
    IsoDateRoundTrip(SerialToDate(n));
  }

  // ---------------------------------------------------------------------
  // The literal for one destination column
  // ---------------------------------------------------------------------

  /** What one mapped column contributes to a tuple. */
  datatype Literal =
    | Lit(text: string)            // the SQL literal
    | UnrecognisedType             // the type switch's default branch: the row is dropped
    | BadSerial(text: string)      // a date column whose text is not a number: the run aborts

  /** A record value that is written as NULL whatever the column's type. */
  predicate IsNullValue(value: Option<string>) {
    value.None? || value.value == "" || value.value == "null"
  }

  /** The literal for a column of type code dataType whose record value is `value`. */
  function ColumnLiteral(value: Option<string>, dataType: int, h: TextHelpers): (lit: Literal)
    ensures IsNullValue(value) ==> lit == Lit("NULL")
    ensures !IsNullValue(value) && Family(dataType).Other? ==> lit == UnrecognisedType
    ensures lit.BadSerial? <==> !IsNullValue(value) && Family(dataType) == DateFamily && h.serialDays(value.value).None?
    ensures lit.UnrecognisedType? ==> !IsNullValue(value) && Family(dataType).Other?
    ensures !IsNullValue(value) && dataType in {BINARY, VARBINARY} ==> lit == Lit(value.value)
    ensures !IsNullValue(value) && dataType in {CHAR, VARCHAR, LONGVARCHAR} ==>
      lit == Lit("'" + h.doubleQuotes(value.value) + "'")
    ensures !IsNullValue(value) && dataType in {REAL, DOUBLE} ==> lit == Lit(h.removeCommas(value.value))
    ensures !IsNullValue(value) && dataType in {BIT, TINYINT, SMALLINT, INTEGER} ==>
      lit == Lit(RemoveFraction(value.value))
    ensures !IsNullValue(value) && dataType in {DATE, TIMESTAMP} && h.serialDays(value.value).Some? ==>
      lit == Lit("'" + ExcelDateToDate(h.serialDays(value.value).value) + "'")
  {
    if IsNullValue(value) then Lit("NULL")
    else
      var v := value.value;
      match Family(dataType)
      case BinaryFamily => Lit(v)
      case TextFamily => Lit("'" + h.doubleQuotes(v) + "'")
      case RealFamily => Lit(h.removeCommas(v))
      case IntegerFamily => Lit(RemoveFraction(v))
      case DateFamily =>
        (match h.serialDays(v)
         case None => BadSerial(v)
         case Some(n) => Lit("'" + ExcelDateToDate(n) + "'"))
      case Other(_) => UnrecognisedType
  }

  /** A non-null value of an integer column loses everything from its first '.' on. */
  lemma IntegerColumnTruncates(v: string, dataType: int, h: TextHelpers)
    requires v != "" && v != "null" && Family(dataType) == IntegerFamily
    ensures '.' !in v ==> ColumnLiteral(Some(v), dataType, h) == Lit(v)
    ensures '.' in v ==> ColumnLiteral(Some(v), dataType, h) == Lit(v[..IndexOf(v, '.')])
    ensures '.' !in ColumnLiteral(Some(v), dataType, h).text
  {
  }

  /** A date column's literal is a quoted YYYY-MM-DD date that reads back as the serial's date. */
  lemma DateColumnQuotesIsoDate(v: string, dataType: int, h: TextHelpers, n: int)
    requires v != "" && v != "null" && Family(dataType) == DateFamily
    requires h.serialDays(v) == Some(n) && 1 <= n <= 2958465
    ensures var t := ColumnLiteral(Some(v), dataType, h).text;
      |t| == 12 && t[0] == '\'' && t[11] == '\'' && ParseIsoDate(t[1..11]) == Some(SerialToDate(n))
  {
    ExcelDateToDateReadsBack(n);
    var t := ColumnLiteral(Some(v), dataType, h).text;
    assert t[1..11] == ExcelDateToDate(n);
  }
}
