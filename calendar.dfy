/** The part of `java.time.LocalDate` the core uses: constructing a date of the
    proleptic Gregorian calendar with `LocalDate.of(year, month, day)`, which
    refuses days that do not exist, and the natural order of dates that the
    `ORDER BY publishedDate` queries sort on. */
module Calendar {
  import opened Wrappers

  datatype Date = Date(year: int, month: int, day: int)

  /** The year range `LocalDate` accepts (`Year.MIN_VALUE` .. `Year.MAX_VALUE`). */
  const MinYear: int := -999_999_999
  const MaxYear: int := 999_999_999

  /** Proleptic Gregorian leap years, as `IsoChronology.isLeapYear` decides them for
      every year, negative ones included (divisibility does not depend on the
      rounding of the remainder). */
  predicate IsLeap(year: int) {
    year % 4 == 0 && (year % 100 != 0 || year % 400 == 0)
  }

  function DaysInMonth(year: int, month: int): (n: int)
    requires 1 <= month <= 12
    ensures 28 <= n <= 31
    ensures month == 2 ==> (n == 29 <==> IsLeap(year)) && (n == 28 <==> !IsLeap(year))
    ensures month in {4, 6, 9, 11} ==> n == 30
    ensures month in {1, 3, 5, 7, 8, 10, 12} ==> n == 31
  {
    if month == 2 then (if IsLeap(year) then 29 else 28)
    else if month == 4 || month == 6 || month == 9 || month == 11 then 30
    else 31
  }

  /** A date that exists in the proleptic Gregorian calendar. */
  predicate ValidDate(d: Date) {
    MinYear <= d.year <= MaxYear && 1 <= d.month <= 12 && 1 <= d.day <= DaysInMonth(d.year, d.month)
  }

  /** `LocalDate.of(year, month, day)`: the date when it exists, None where Java
      throws DateTimeException. */
  function LocalDateOf(year: int, month: int, day: int): (r: Option<Date>)
    ensures r.Some? <==> ValidDate(Date(year, month, day))
    ensures r.Some? ==> r.value.year == year && r.value.month == month && r.value.day == day
  {
    if year < MinYear || year > MaxYear then None
    else if month < 1 || month > 12 then None
    else if day < 1 || day > 31 then None
    else if day > DaysInMonth(year, month) then None
    else Some(Date(year, month, day))
  }

  /** The chronological order of dates. */
  predicate Before(a: Date, b: Date) {
    a.year < b.year || (a.year == b.year && (a.month < b.month || (a.month == b.month && a.day < b.day)))
  }

  /** A number that orders dates chronologically, used as the sort key of
      `ORDER BY publishedDate`. */
  function DateKey(d: Date): int {
    d.year * 10000 + d.month * 100 + d.day
  }

  /** On dates whose month and day are in range, the key order is the chronological order
      and the key determines the date. */
  lemma DateKeyIsChronological(a: Date, b: Date)
    requires 1 <= a.month <= 12 && 1 <= a.day <= 31
    requires 1 <= b.month <= 12 && 1 <= b.day <= 31
    ensures DateKey(a) < DateKey(b) <==> Before(a, b)
    ensures DateKey(a) == DateKey(b) <==> a == b
  {
    if a.year < b.year {
      assert DateKey(a) <= a.year * 10000 + 1231;
      assert b.year * 10000 + 101 <= DateKey(b);
    } else if a.year > b.year {
      assert DateKey(b) <= b.year * 10000 + 1231;
      assert a.year * 10000 + 101 <= DateKey(a);
    }
  }
}
