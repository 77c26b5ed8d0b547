/** The book creation request (dto/BookRequest.kt) and its conversion of a
    Buddhist Era `yyyy-MM-dd` string into a Gregorian date. */
module Dto {
  import opened Wrappers
  import opened Strings
  import opened Calendar
  import opened Entity

  /** The incoming request: untrimmed title and author, the publication date as
      Buddhist Era text, and a status that defaults to AVAILABLE. */
  datatype BookRequest = BookRequest(
    title: string,
    author: string,
    publishedDate: string,
    status: BookStatus := Available)

  /** A request built without a status asks for AVAILABLE. */
  lemma RequestStatusDefault(title: string, author: string, publishedDate: string)
    ensures BookRequest(title, author, publishedDate).status == Available
  {
  }

  /** The Buddhist Era counts 543 years ahead of the Common Era. */
  const BuddhistEraOffset: int := 543

  /** Why a date string was refused. Every kind surfaces as an
      IllegalArgumentException carrying `Message()`. */
  datatype DateError = InvalidFormat | InvalidMonth | InvalidDay | InvalidCalendarDate {
    function Message(): string {
      match this
      case InvalidFormat => "Invalid date format. Expected yyyy-MM-dd"
      case InvalidMonth => "Invalid month. Month must be between 1 and 12."
      case InvalidDay => "Invalid day. Day must be between 1 and 31."
      case InvalidCalendarDate => "Invalid date. The date does not exist in the Gregorian calendar."
    }
  }

  /** The three parts of a split date, shaped `\d{4}`, `\d{2}`, `\d{2}`. */
  predicate WellShaped(parts: seq<string>) {
    |parts| == 3 && MatchesDigits(parts[0], 4) && MatchesDigits(parts[1], 2) && MatchesDigits(parts[2], 2)
  }

  /** `BookRequest.toGregorianDate`: split on '-', check the digit shape, range-check
      month then day, subtract the era offset, and build the Gregorian date.
      `toInt()` cannot fail on a checked digit run, so the NumberFormatException
      branch of the source has no counterpart here. */
  function ToGregorianDate(publishedDate: string): (r: Result<Date, DateError>)
    ensures r.Ok? ==> ValidDate(r.value)
    ensures r.Ok? ==> -BuddhistEraOffset <= r.value.year <= 9999 - BuddhistEraOffset
  {
    var parts := Split(publishedDate, '-');
    if |parts| != 3 then Err(InvalidFormat)
    else if !WellShaped(parts) then Err(InvalidFormat)
    else ConvertFields(DecimalValue(parts[0]), DecimalValue(parts[1]), DecimalValue(parts[2]))
  }

  /** The numeric half of the conversion, once the three fields are read:
      range-check month then day, subtract the era offset, build the date. */
  function ConvertFields(buddhistYear: int, month: int, day: int): Result<Date, DateError> {
    if month < 1 || month > 12 then Err(InvalidMonth)
    else if day < 1 || day > 31 then Err(InvalidDay)
    else
      var gregorianYear := buddhistYear - BuddhistEraOffset;
      match LocalDateOf(gregorianYear, month, day)
      case None => Err(InvalidCalendarDate)
      case Some(date) => Ok(date)
  }

  /** Three digit fields joined by '-' split back into those fields. */
  lemma SplitFields(y: string, m: string, dd: string)
    requires MatchesDigits(y, 4) && MatchesDigits(m, 2) && MatchesDigits(dd, 2)
    ensures Split(y + "-" + m + "-" + dd, '-') == [y, m, dd]
  {
    DigitsHaveNo(y, '-');
    DigitsHaveNo(m, '-');
    DigitsHaveNo(dd, '-');
    SplitThree(y, m, dd, '-');
    assert y + "-" + m + "-" + dd == y + ['-'] + m + ['-'] + dd;
  }

  /** The Buddhist text of three numbers splits back into their padded fields. */
  lemma SplitRendering(buddhistYear: nat, month: nat, day: nat)
    requires buddhistYear < 10000 && month < 100 && day < 100
    ensures WellShaped(Split(Render(buddhistYear, month, day), '-'))
    ensures DecimalValue(Split(Render(buddhistYear, month, day), '-')[0]) == buddhistYear
    ensures DecimalValue(Split(Render(buddhistYear, month, day), '-')[1]) == month
    ensures DecimalValue(Split(Render(buddhistYear, month, day), '-')[2]) == day
  {
    PadDecimalRoundTrip(buddhistYear, 4);
    PadDecimalRoundTrip(month, 2);
    PadDecimalRoundTrip(day, 2);
    SplitFields(PadDecimal(buddhistYear, 4), PadDecimal(month, 2), PadDecimal(day, 2));
  }

  /** `yyyy-MM-dd` text of three numbers, zero-padded. */
  function Render(year: nat, month: nat, day: nat): string
    requires year < 10000 && month < 100 && day < 100
  {
    PadDecimal(year, 4) + "-" + PadDecimal(month, 2) + "-" + PadDecimal(day, 2)
  }

  /** The dates a four-digit Buddhist year can name. */
  predicate Representable(d: Date) {
    ValidDate(d) && -BuddhistEraOffset <= d.year <= 9999 - BuddhistEraOffset
  }

  /** The Buddhist Era `yyyy-MM-dd` text of a Gregorian date: the inverse of the conversion. */
  function FormatBuddhistDate(d: Date): string
    requires Representable(d)
  {
    Render(d.year + BuddhistEraOffset, d.month, d.day)
  }

  /** Every date that exists and whose Buddhist year has four digits is accepted
      in its `yyyy-MM-dd` Buddhist form and converted back to itself. */
  lemma ToGregorianDateAcceptsEveryRendering(d: Date)
    requires Representable(d)
    ensures ToGregorianDate(FormatBuddhistDate(d)) == Ok(d)
  {
    SplitRendering(d.year + BuddhistEraOffset, d.month, d.day);
  }

  /** Conversely, the only strings accepted are such renderings: the input is the
      Buddhist form of the result, so the Gregorian year is the Buddhist year minus
      543 and month and day are carried over unchanged. */
  lemma ToGregorianDateAcceptsOnlyRenderings(s: string)
    requires ToGregorianDate(s).Ok?
    ensures Representable(ToGregorianDate(s).value)
    ensures s == FormatBuddhistDate(ToGregorianDate(s).value)
  {
    var parts := Split(s, '-');
    SplitJoin(s, '-');
    assert s == parts[0] + "-" + parts[1] + "-" + parts[2] by {
      assert parts[1..][1..] == [parts[2]];
      assert Join(parts[1..], "-") == parts[1] + "-" + parts[2];
      assert Join(parts, "-") == parts[0] + "-" + Join(parts[1..], "-");
    }
    DecimalValuePadRoundTrip(parts[0]);
    DecimalValuePadRoundTrip(parts[1]);
    DecimalValuePadRoundTrip(parts[2]);
  }

  /** The error each malformed input draws, in the order the checks run. */
  lemma ToGregorianDateErrors(s: string)
    ensures |Split(s, '-')| != 3 ==> ToGregorianDate(s) == Err(InvalidFormat)
    ensures |Split(s, '-')| == 3 && !WellShaped(Split(s, '-')) ==> ToGregorianDate(s) == Err(InvalidFormat)
    ensures WellShaped(Split(s, '-')) && !(1 <= DecimalValue(Split(s, '-')[1]) <= 12)
      ==> ToGregorianDate(s) == Err(InvalidMonth)
    ensures WellShaped(Split(s, '-')) && 1 <= DecimalValue(Split(s, '-')[1]) <= 12
      && !(1 <= DecimalValue(Split(s, '-')[2]) <= 31)
      ==> ToGregorianDate(s) == Err(InvalidDay)
    ensures WellShaped(Split(s, '-')) && 1 <= DecimalValue(Split(s, '-')[1]) <= 12
      && 1 <= DecimalValue(Split(s, '-')[2]) <= 31
      && DecimalValue(Split(s, '-')[2]) > DaysInMonth(DecimalValue(Split(s, '-')[0]) - BuddhistEraOffset, DecimalValue(Split(s, '-')[1]))
      ==> ToGregorianDate(s) == Err(InvalidCalendarDate)
  {
  }

  /** A date that does not exist is refused even when its text is well formed:
      the Buddhist form of a Gregorian day past the end of its month draws
      InvalidCalendarDate. */
  lemma ToGregorianDateRefusesMissingDays(year: int, month: int, day: int)
    requires -BuddhistEraOffset <= year <= 9999 - BuddhistEraOffset
    requires 1 <= month <= 12 && DaysInMonth(year, month) < day <= 31
    ensures ToGregorianDate(Render(year + BuddhistEraOffset, month, day)) == Err(InvalidCalendarDate)
  {
    SplitRendering(year + BuddhistEraOffset, month, day);
  }

  /** February 29 is accepted exactly in Gregorian leap years. */
  lemma LeapDayAcceptedIffLeapYear(year: int)
    requires -BuddhistEraOffset <= year <= 9999 - BuddhistEraOffset
    ensures ToGregorianDate(Render(year + BuddhistEraOffset, 2, 29)).Ok? <==> IsLeap(year)
  {
    if IsLeap(year) {
      ToGregorianDateAcceptsEveryRendering(Date(year, 2, 29));
    } else {
      ToGregorianDateRefusesMissingDays(year, 2, 29);
    }
  }
}

module DtoExamples {
  import opened Wrappers
  import opened Strings
  import opened Calendar
  import opened Dto

  // Conversions the request's tests pin down, one per lemma.

  /** A well-shaped literal converts as its three fields do. */
  lemma Fields(s: string, y: string, m: string, dd: string)
    requires s == y + "-" + m + "-" + dd
    requires MatchesDigits(y, 4) && MatchesDigits(m, 2) && MatchesDigits(dd, 2)
    ensures ToGregorianDate(s) == ConvertFields(DecimalValue(y), DecimalValue(m), DecimalValue(dd))
  {
    SplitFields(y, m, dd);
  }

  lemma TwoDigits(s: string)
    requires MatchesDigits(s, 2)
    ensures DecimalValue(s) == 10 * DigitValue(s[0]) + DigitValue(s[1])
  {
    assert s[..1][..0] == [];
    assert s[..1] == [s[0]];
  }

  lemma FourDigits(s: string)
    requires MatchesDigits(s, 4)
    ensures DecimalValue(s) == 1000 * DigitValue(s[0]) + 100 * DigitValue(s[1]) + 10 * DigitValue(s[2]) + DigitValue(s[3])
  {
    TwoDigits(s[..2]);
    assert s[..3][..2] == s[..2];
    assert s[..3][2] == s[2];
  }

  /** The 29th of February of a Buddhist year converts exactly when the
      Gregorian year is a leap year. */
  lemma FebruaryTwentyNinth(buddhistYear: int)
    requires 0 <= buddhistYear <= 9999
    ensures IsLeap(buddhistYear - BuddhistEraOffset) ==>
      ConvertFields(buddhistYear, 2, 29) == Ok(Date(buddhistYear - BuddhistEraOffset, 2, 29))
    ensures !IsLeap(buddhistYear - BuddhistEraOffset) ==>
      ConvertFields(buddhistYear, 2, 29) == Err(InvalidCalendarDate)
  {
  }

  lemma ExampleTwentyFiveNewYear()
    ensures ToGregorianDate("2568-01-01") == Ok(Date(2025, 1, 1))
  {
    assert ConvertFields(2568, 1, 1) == Ok(Date(2025, 1, 1));
    assert ToGregorianDate("2568-01-01") == ConvertFields(2568, 1, 1) by {
      var y, m, d := "2568", "01", "01";
      assert DecimalValue(y) == 2568 by { FourDigits(y); }
      assert DecimalValue(m) == 1 by { TwoDigits(m); }
      assert DecimalValue(d) == 1 by { TwoDigits(d); }
      Fields("2568-01-01", y, m, d);
    }
  }

  lemma ExampleYear457()
    ensures ToGregorianDate("1000-01-01") == Ok(Date(457, 1, 1))
  {
    assert ConvertFields(1000, 1, 1) == Ok(Date(457, 1, 1));
    assert ToGregorianDate("1000-01-01") == ConvertFields(1000, 1, 1) by {
      var y, m, d := "1000", "01", "01";
      assert DecimalValue(y) == 1000 by { FourDigits(y); }
      assert DecimalValue(m) == 1 by { TwoDigits(m); }
      assert DecimalValue(d) == 1 by { TwoDigits(d); }
      Fields("1000-01-01", y, m, d);
    }
  }

  lemma ExampleTwentyFourNewYearsEve()
    ensures ToGregorianDate("2567-12-31") == Ok(Date(2024, 12, 31))
  {
    assert ConvertFields(2567, 12, 31) == Ok(Date(2024, 12, 31));
    assert ToGregorianDate("2567-12-31") == ConvertFields(2567, 12, 31) by {
      var y, m, d := "2567", "12", "31";
      assert DecimalValue(y) == 2567 by { FourDigits(y); }
      assert DecimalValue(m) == 12 by { TwoDigits(m); }
      assert DecimalValue(d) == 31 by { TwoDigits(d); }
      Fields("2567-12-31", y, m, d);
    }
  }

  lemma ExampleLeapDay2024()
    ensures ToGregorianDate("2567-02-29") == Ok(Date(2024, 2, 29))
  {
    assert ConvertFields(2567, 2, 29) == Ok(Date(2024, 2, 29)) by { FebruaryTwentyNinth(2567); }
    assert ToGregorianDate("2567-02-29") == ConvertFields(2567, 2, 29) by {
      var y, m, d := "2567", "02", "29";
      assert DecimalValue(y) == 2567 by { FourDigits(y); }
      assert DecimalValue(m) == 2 by { TwoDigits(m); }
      assert DecimalValue(d) == 29 by { TwoDigits(d); }
      Fields("2567-02-29", y, m, d);
    }
  }

  lemma ExampleLeapDay2000()
    ensures ToGregorianDate("2543-02-29") == Ok(Date(2000, 2, 29))
  {
    assert ConvertFields(2543, 2, 29) == Ok(Date(2000, 2, 29)) by { FebruaryTwentyNinth(2543); }
    assert ToGregorianDate("2543-02-29") == ConvertFields(2543, 2, 29) by {
      var y, m, d := "2543", "02", "29";
      assert DecimalValue(y) == 2543 by { FourDigits(y); }
      assert DecimalValue(m) == 2 by { TwoDigits(m); }
      assert DecimalValue(d) == 29 by { TwoDigits(d); }
      Fields("2543-02-29", y, m, d);
    }
  }

  lemma ExampleNoLeapDay2025()
    ensures ToGregorianDate("2568-02-29") == Err(InvalidCalendarDate)
  {
    assert ConvertFields(2568, 2, 29) == Err(InvalidCalendarDate) by { FebruaryTwentyNinth(2568); }
    assert ToGregorianDate("2568-02-29") == ConvertFields(2568, 2, 29) by {
      var y, m, d := "2568", "02", "29";
      assert DecimalValue(y) == 2568 by { FourDigits(y); }
      assert DecimalValue(m) == 2 by { TwoDigits(m); }
      assert DecimalValue(d) == 29 by { TwoDigits(d); }
      Fields("2568-02-29", y, m, d);
    }
  }

  lemma ExampleNoLeapDay2100()
    ensures ToGregorianDate("2643-02-29") == Err(InvalidCalendarDate)
  {
    assert ConvertFields(2643, 2, 29) == Err(InvalidCalendarDate) by { FebruaryTwentyNinth(2643); }
    assert ToGregorianDate("2643-02-29") == ConvertFields(2643, 2, 29) by {
      var y, m, d := "2643", "02", "29";
      assert DecimalValue(y) == 2643 by { FourDigits(y); }
      assert DecimalValue(m) == 2 by { TwoDigits(m); }
      assert DecimalValue(d) == 29 by { TwoDigits(d); }
      Fields("2643-02-29", y, m, d);
    }
  }

  lemma ExampleNoLeapDay2001()
    ensures ToGregorianDate("2544-02-29") == Err(InvalidCalendarDate)
  {
    assert ConvertFields(2544, 2, 29) == Err(InvalidCalendarDate) by { FebruaryTwentyNinth(2544); }
    assert ToGregorianDate("2544-02-29") == ConvertFields(2544, 2, 29) by {
      var y, m, d := "2544", "02", "29";
      assert DecimalValue(y) == 2544 by { FourDigits(y); }
      assert DecimalValue(m) == 2 by { TwoDigits(m); }
      assert DecimalValue(d) == 29 by { TwoDigits(d); }
      Fields("2544-02-29", y, m, d);
    }
  }

  lemma ExampleMonthThirteen()
    ensures ToGregorianDate("2567-13-01") == Err(InvalidMonth)
  {
    assert ConvertFields(2567, 13, 1) == Err(InvalidMonth);
    assert ToGregorianDate("2567-13-01") == ConvertFields(2567, 13, 1) by {
      var y, m, d := "2567", "13", "01";
      assert DecimalValue(y) == 2567 by { FourDigits(y); }
      assert DecimalValue(m) == 13 by { TwoDigits(m); }
      assert DecimalValue(d) == 1 by { TwoDigits(d); }
      Fields("2567-13-01", y, m, d);
    }
  }

  lemma ExampleMonthZero()
    ensures ToGregorianDate("2567-00-01") == Err(InvalidMonth)
  {
    assert ConvertFields(2567, 0, 1) == Err(InvalidMonth);
    assert ToGregorianDate("2567-00-01") == ConvertFields(2567, 0, 1) by {
      var y, m, d := "2567", "00", "01";
      assert DecimalValue(y) == 2567 by { FourDigits(y); }
      assert DecimalValue(m) == 0 by { TwoDigits(m); }
      assert DecimalValue(d) == 1 by { TwoDigits(d); }
      Fields("2567-00-01", y, m, d);
    }
  }

  lemma ExampleDayThirtyTwo()
    ensures ToGregorianDate("2567-01-32") == Err(InvalidDay)
  {
    assert ConvertFields(2567, 1, 32) == Err(InvalidDay);
    assert ToGregorianDate("2567-01-32") == ConvertFields(2567, 1, 32) by {
      var y, m, d := "2567", "01", "32";
      assert DecimalValue(y) == 2567 by { FourDigits(y); }
      assert DecimalValue(m) == 1 by { TwoDigits(m); }
      assert DecimalValue(d) == 32 by { TwoDigits(d); }
      Fields("2567-01-32", y, m, d);
    }
  }

  lemma ExampleDayZero()
    ensures ToGregorianDate("2567-01-00") == Err(InvalidDay)
  {
    assert ConvertFields(2567, 1, 0) == Err(InvalidDay);
    assert ToGregorianDate("2567-01-00") == ConvertFields(2567, 1, 0) by {
      var y, m, d := "2567", "01", "00";
      assert DecimalValue(y) == 2567 by { FourDigits(y); }
      assert DecimalValue(m) == 1 by { TwoDigits(m); }
      assert DecimalValue(d) == 0 by { TwoDigits(d); }
      Fields("2567-01-00", y, m, d);
    }
  }

  lemma ExampleMissingZeros()
    ensures ToGregorianDate("2567-1-1") == Err(InvalidFormat)
  {
    SplitThree("2567", "1", "1", '-');
    assert "2567" + ['-'] + "1" + ['-'] + "1" == "2567-1-1";
  }

  lemma ExampleSlashes()
    ensures ToGregorianDate("2567/01/01") == Err(InvalidFormat)
  {
    SplitNoSep("2567/01/01", '-');
  }

  lemma ExampleWords()
    ensures ToGregorianDate("invalid-date") == Err(InvalidFormat)
  {
    SplitAppend("invalid", "date", '-');
    SplitNoSep("date", '-');
    assert "invalid" + ['-'] + "date" == "invalid-date";
  }

  lemma ExampleEmpty()
    ensures ToGregorianDate("") == Err(InvalidFormat)
  {
  }
}
