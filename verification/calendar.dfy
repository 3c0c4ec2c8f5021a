/** The proleptic Gregorian calendar that `LocalDate.of` validates against. */
module Calendar {
  import opened Numbers

  /** The year range `LocalDate` accepts. */
  const MinYear: int := -999_999_999
  const MaxYear: int := 999_999_999

  /** Gregorian leap years, extended backwards without limit (year 0 is a
      leap year, as is -4). */
  predicate IsLeapYear(year: int) {
    year % 4 == 0 && (year % 100 != 0 || year % 400 == 0)
  }

  function DaysInMonth(year: int, month: int): (days: int)
    requires 1 <= month <= 12
    ensures 28 <= days <= 31
  {
    if month == 2 then (if IsLeapYear(year) then 29 else 28)
    else if month == 4 || month == 6 || month == 9 || month == 11 then 30
    else 31
  }

  /** `LocalDate.of(year, month, day)` returns instead of throwing. */
  predicate IsValidDate(year: int, month: int, day: int) {
    && MinYear <= year <= MaxYear
    && 1 <= month <= 12
    && 1 <= day <= DaysInMonth(year, month)
  }

  function DaysBeforeMonth(year: int, month: int): nat
    requires 1 <= month <= 13
    decreases month
  {
    if month == 1 then 0 else DaysBeforeMonth(year, month - 1) + DaysInMonth(year, month - 1)
  }

  /** The twelve month lengths add up to the length of the year. */
  lemma YearLength(year: int)
    ensures DaysBeforeMonth(year, 13) == if IsLeapYear(year) then 366 else 365
  {
  }

  /** February 29 exists exactly in leap years. */
  lemma LeapDay(year: int)
    requires MinYear <= year <= MaxYear
    ensures IsValidDate(year, 2, 29) <==> IsLeapYear(year)
  {
  }

  /** The calendar repeats every 400 years. */
  lemma {:induction false} FourHundredYearCycle(year: int, month: int)
    requires 1 <= month <= 12
    ensures DaysInMonth(year + 400, month) == DaysInMonth(year, month)
  {
    ShiftKeepsRemainder(year, 4, 100);
    ShiftKeepsRemainder(year, 100, 4);
    ShiftKeepsRemainder(year, 400, 1);
    assert IsLeapYear(year + 400) == IsLeapYear(year);
  }

  /** Adding a multiple of the divisor keeps the remainder. */
  lemma ShiftKeepsRemainder(year: int, m: int, k: int)
    requires m > 0
    ensures (year + k * m) % m == year % m
  {
    var q, r := year / m, year % m;
    assert year + k * m == (q + k) * m + r;
    DivModUnique(year + k * m, m, q + k, r);
  }
}
