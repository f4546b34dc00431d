/** The calendar helpers and input bounds of the user interface's date and
    time prompts: the Gregorian leap-year rule and month lengths, and the
    ranges each prompt accepts. */
module Calendar {
  import Dates

  /** The Gregorian rule: every fourth year, except century years that are
      not a multiple of 400. */
  predicate IsLeapYear(year: nat) {
    year % 4 == 0 && (year % 100 != 0 || year % 400 == 0)
  }

  /** The days of each month of a common year, January first. */
  const DaysInMonth: seq<nat> := [31, 28, 31, 30, 31, 30, 31, 31, 30, 31, 30, 31]

  /** The DaysPerMonth lambda: February depends on the year, every other
      month is looked up in the table. The table index month - 1 is only
      defined for months 1 to 12. */
  function DaysPerMonth(year: nat, month: nat): (days: nat)
    requires 1 <= month <= 12
    ensures 28 <= days <= 31
    ensures month == 2 ==> (days == 29 <==> IsLeapYear(year)) && (days == 28 <==> !IsLeapYear(year))
    ensures month != 2 ==> (days == 30 <==> month in {4, 6, 9, 11}) && (days == 31 <==> month !in {4, 6, 9, 11})
  {
    if month == 2 then
      if IsLeapYear(year) then 29 else 28
    else
      DaysInMonth[month - 1]
  }

  /** The twelve month lengths of a year added up. */
  function DaysInYear(year: nat): nat {
    DaysPerMonth(year, 1) + DaysPerMonth(year, 2) + DaysPerMonth(year, 3)
      + DaysPerMonth(year, 4) + DaysPerMonth(year, 5) + DaysPerMonth(year, 6)
      + DaysPerMonth(year, 7) + DaysPerMonth(year, 8) + DaysPerMonth(year, 9)
      + DaysPerMonth(year, 10) + DaysPerMonth(year, 11) + DaysPerMonth(year, 12)
  }

  /** The months add up to the Gregorian year: 366 days in a leap year and
      365 otherwise. */
  lemma YearLength(year: nat)
    ensures DaysInYear(year) == if IsLeapYear(year) then 366 else 365
  {
  }

  /** The leap-year rule repeats every 400 years. */
  lemma LeapCycle(year: nat)
    ensures IsLeapYear(year + 400) <==> IsLeapYear(year)
  {
    assert (year + 400) % 4 == year % 4;
    assert (year + 400) % 100 == year % 100;
    assert (year + 400) % 400 == year % 400;
  }

  // ------------------------------------------------------------ Input bounds

  /** The ranges get_year_month_day accepts: years 1900 to 2024, months 1
      to 12, and days 1 to the length of the month chosen. */
  predicate ValidDateInput(year: nat, month: nat, day: nat) {
    && 1900 <= year <= 2024
    && 1 <= month <= 12
    && 1 <= day <= DaysPerMonth(year, month)
  }

  /** The ranges get_time accepts. */
  predicate ValidTimeInput(hour: nat, minute: nat, second: nat, milli: nat) {
    hour <= 23 && minute <= 59 && second <= 59 && milli <= 999
  }

  /** An accepted date never has a 29 February outside a leap year nor more
      days than its month. */
  lemma DateInputIsCalendarDate(year: nat, month: nat, day: nat)
    requires ValidDateInput(year, month, day)
    ensures day <= 31
    ensures month == 2 && day == 29 ==> IsLeapYear(year)
    ensures month in {4, 6, 9, 11} ==> day <= 30
  {
  }

  /** Any accepted clock reading composes to at most 86,399,999 ms, below one
      day and below 2^32, so the composed Time is in range, and the largest
      reading reaches that bound exactly. */
  lemma TimeInputInDay(hour: nat, minute: nat, second: nat, milli: nat)
    requires ValidTimeInput(hour, minute, second, milli)
    ensures Dates.PartsTotal(hour, minute, second, milli) <= 86399999
    ensures Dates.PartsTotal(hour, minute, second, milli) % Dates.U32Modulus
            == Dates.PartsTotal(hour, minute, second, milli)
    ensures Dates.TimeOf(Dates.PartsTotal(hour, minute, second, milli)).Ok?
    ensures Dates.PartsTotal(23, 59, 59, 999) == 86399999
  {
    Dates.SplitOfParts(hour, minute, second, milli);
  }
}
