/** The proleptic Gregorian calendar, counted as the library's `toordinal`
    counts it: day 1 is 1 January of year 1, a Monday, so a day whose
    ordinal is a multiple of 7 is a Sunday. */
module Calendar {

  predicate IsLeap(year: int) {
    year % 4 == 0 && (year % 100 != 0 || year % 400 == 0)
  }

  function DaysInMonth(year: int, month: int): (n: int)
    requires 1 <= month <= 12
    ensures 28 <= n <= 31
  {
    if month == 2 then (if IsLeap(year) then 29 else 28)
    else if month == 4 || month == 6 || month == 9 || month == 11 then 30
    else 31
  }

  /** Days in the years before `year`. */
  function DaysBeforeYear(year: int): int
    requires 1 <= year
  {
    var y := year - 1;
    y * 365 + y / 4 - y / 100 + y / 400
  }

  /** Days in the months of `year` before `month`. */
  function DaysBeforeMonth(year: int, month: int): (n: int)
    requires 1 <= month <= 12
    ensures month == 1 ==> n == 0
    ensures 1 < month ==> n == DaysBeforeMonth(year, month - 1) + DaysInMonth(year, month - 1)
  {
    [0, 31, 59, 90, 120, 151, 181, 212, 243, 273, 304, 334][month - 1]
      + (if month > 2 && IsLeap(year) then 1 else 0)
  }

  function Ordinal(year: int, month: int, day: int): int
    requires 1 <= year && 1 <= month <= 12
  {
    DaysBeforeYear(year) + DaysBeforeMonth(year, month) + day
  }

  predicate IsSunday(year: int, month: int, day: int)
    requires 1 <= year && 1 <= month <= 12
  {
    Ordinal(year, month, day) % 7 == 0
  }

  /** `day` is a Sunday of the month and no later day of the month is. */
  predicate IsLastSunday(year: int, month: int, day: int)
    requires 1 <= year && 1 <= month <= 12
  {
    1 <= day <= DaysInMonth(year, month)
    && IsSunday(year, month, day)
    && DaysInMonth(year, month) < day + 7
  }

  /** The ordinals the library itself reports: 10 August 1975 is day 721210
      (main.py:326), and 28 March 2010 was a Sunday. */
  lemma OrdinalExamples()
    ensures Ordinal(1975, 8, 10) == 721210
    ensures IsSunday(2010, 3, 28)
  {
  }
}
