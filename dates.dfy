/**
  The calendar arithmetic behind the age computation of the registration
  endpoints: DateTime.AddYears on the date part, and the whole-years age it
  is used for.
 */
module Dates {

  /** The date part of a DateTime (the proleptic Gregorian calendar, years 1 to 9999). */
  datatype Date = Date(year: int, month: int, day: int)

  predicate IsLeapYear(y: int) {
    y % 4 == 0 && (y % 100 != 0 || y % 400 == 0)
  }

  function DaysInMonth(y: int, m: int): int
    requires 1 <= m <= 12
  {
    if m == 2 then (if IsLeapYear(y) then 29 else 28)
    else if m == 4 || m == 6 || m == 9 || m == 11 then 30
    else 31
  }

  predicate ValidDate(d: Date) {
    1 <= d.year <= 9999 && 1 <= d.month <= 12 && 1 <= d.day <= DaysInMonth(d.year, d.month)
  }

  /** Chronological order of dates: year, then month, then day. */
  predicate Before(a: Date, b: Date) {
    a.year < b.year
    || (a.year == b.year && a.month < b.month)
    || (a.year == b.year && a.month == b.month && a.day < b.day)
  }

  /** DateTime.AddYears: the same month and day n years on, with 29 February clamped to the 28th in a common year. */
  function AddYears(d: Date, n: int): (r: Date)
    ensures r.year == d.year + n && r.month == d.month
    ensures ValidDate(d) && 1 <= d.year + n <= 9999 ==> ValidDate(r)
    ensures ValidDate(d) ==>
      r.day == (if d.day <= DaysInMonth(r.year, r.month) then d.day else DaysInMonth(r.year, r.month))
  {
    var y := d.year + n;
    if d.month == 2 && d.day == 29 && !IsLeapYear(y) then Date(y, 2, 28) else Date(y, d.month, d.day)
  }

  /**
    The age the registration endpoints store: the difference of the years,
    less one when the birth date falls after today moved back by that many
    years. Today's time of day does not matter, because a date at midnight is
    after a moment of the same day only if it is after the day itself.
   */
  function AgeInYears(birth: Date, today: Date): int {
    var age := today.year - birth.year;
    if Before(AddYears(today, -age), birth) then age - 1 else age
  }

  /** The n-th birthday, as a month and day n years after the birth year (never clamped). */
  function Anniversary(birth: Date, n: int): Date {
    Date(birth.year + n, birth.month, birth.day)
  }

  /**
    For a valid birth date, the age is the number of birthdays that have
    passed: the n-th birthday is on or before today, the next one is after it.
    A 29 February birthday in a common year counts as passed on 1 March.
   */
  lemma AgeCountsBirthdays(birth: Date, today: Date)
    requires ValidDate(birth) && ValidDate(today)
    ensures !Before(today, Anniversary(birth, AgeInYears(birth, today)))
    ensures Before(today, Anniversary(birth, AgeInYears(birth, today) + 1))
  {
    var age := today.year - birth.year;
    var shifted := AddYears(today, -age);
    assert shifted.year == birth.year;
    if today.month == 2 && today.day == 29 && !IsLeapYear(birth.year) {
      // shifted is 28 February of the birth year, which has no 29th
      assert birth.month == 2 ==> birth.day <= 28;
    }
  }
}
