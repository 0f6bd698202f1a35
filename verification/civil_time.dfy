/**
 * Proleptic-Gregorian civil dates and times as Python's `datetime` module
 * represents them: the date arithmetic behind `datetime.weekday()`.
 */
module CivilTime {

  predicate IsLeapYear(y: int) {
    y % 4 == 0 && (y % 100 != 0 || y % 400 == 0)
  }

  function DaysInYear(y: int): int {
    if IsLeapYear(y) then 366 else 365
  }

  function DaysInMonth(y: int, m: int): (n: int)
    requires 1 <= m <= 12
    ensures 28 <= n <= 31
    ensures n == 29 <==> m == 2 && IsLeapYear(y)
  {
    if m == 2 then (if IsLeapYear(y) then 29 else 28)
    else if m == 4 || m == 6 || m == 9 || m == 11 then 30
    else 31
  }

  /** A calendar date; Python's `date` admits years 1 through 9999. */
  datatype Date = Date(year: int, month: int, day: int)

  predicate ValidDate(d: Date) {
    1 <= d.year <= 9999 && 1 <= d.month <= 12 && 1 <= d.day <= DaysInMonth(d.year, d.month)
  }

  /**
   * A wall-clock timestamp with the UTC offset it was written with, in
   * microseconds. The offset is carried but never used to shift the time.
   */
  datatype DateTime = DateTime(date: Date, hour: int, minute: int, second: int, utcOffset: int)

  const MicrosPerDay := 86_400_000_000

  /** What Python's `datetime` constructor and `timezone` accept. */
  predicate ValidDateTime(t: DateTime) {
    ValidDate(t.date) && 0 <= t.hour < 24 && 0 <= t.minute < 60 && 0 <= t.second < 60
    && -MicrosPerDay < t.utcOffset < MicrosPerDay
  }

  /** Days in the years before year `y` (Python's `_days_before_year`). */
  function DaysBeforeYear(y: int): int
    requires y >= 1
  {
    var p := y - 1;
    p * 365 + p / 4 - p / 100 + p / 400
  }

  /** Days in the months of year `y` before month `m` (Python's `_days_before_month`). */
  function DaysBeforeMonth(y: int, m: int): int
    requires 1 <= m <= 12
  {
    var before :=
      if m == 1 then 0 else if m == 2 then 31 else if m == 3 then 59
      else if m == 4 then 90 else if m == 5 then 120 else if m == 6 then 151
      else if m == 7 then 181 else if m == 8 then 212 else if m == 9 then 243
      else if m == 10 then 273 else if m == 11 then 304 else 334;
    before + (if m > 2 && IsLeapYear(y) then 1 else 0)
  }

  /** Python's `date.toordinal()`: 0001-01-01 is day 1. */
  function Ordinal(d: Date): (n: int)
    requires ValidDate(d)
    ensures 1 <= n <= 3_652_059
  {
    DaysBeforeYearBounds(d.year);
    DaysBeforeYear(d.year) + DaysBeforeMonth(d.year, d.month) + d.day
  }

  /** Python's `date.weekday()`: Monday is 0 and Sunday is 6. */
  function Weekday(d: Date): (w: int)
    requires ValidDate(d)
    ensures 0 <= w < 7
  {
    (Ordinal(d) + 6) % 7
  }

  /** The years before `y` hold between 365 and 366 days each. */
  lemma DaysBeforeYearBounds(y: int)
    requires 1 <= y <= 9999
    ensures 365 * (y - 1) <= DaysBeforeYear(y) <= DaysBeforeYear(9999) == 3_651_694
  {
  }

  const LastDate := Date(9999, 12, 31)

  /** The calendar day after `d`. */
  function NextDay(d: Date): (n: Date)
    requires ValidDate(d) && d != LastDate
    ensures ValidDate(n)
  {
    if d.day < DaysInMonth(d.year, d.month) then Date(d.year, d.month, d.day + 1)
    else if d.month < 12 then Date(d.year, d.month + 1, 1)
    else Date(d.year + 1, 1, 1)
  }

  lemma DaysBeforeNextYear(y: int)
    requires y >= 1
    ensures DaysBeforeYear(y + 1) == DaysBeforeYear(y) + DaysInYear(y)
  {
    var p := y - 1;
    assert y / 4 == p / 4 + (if y % 4 == 0 then 1 else 0);
    assert y / 100 == p / 100 + (if y % 100 == 0 then 1 else 0);
    assert y / 400 == p / 400 + (if y % 400 == 0 then 1 else 0);
  }

  /** Consecutive days have consecutive ordinals. */
  lemma OrdinalOfNextDay(d: Date)
    requires ValidDate(d) && d != LastDate
    ensures Ordinal(NextDay(d)) == Ordinal(d) + 1
  {
    if d.day == DaysInMonth(d.year, d.month) && d.month == 12 {
      DaysBeforeNextYear(d.year);
    }
  }

  /** The weekday advances by one, cyclically, from each day to the next. */
  lemma {:induction false} WeekdayOfNextDay(d: Date)
    requires ValidDate(d) && d != LastDate
    ensures Weekday(NextDay(d)) == (Weekday(d) + 1) % 7
  {
    var o := Ordinal(d);
    OrdinalOfNextDay(d);
    CyclicSuccessor(o);
  }

  lemma CyclicSuccessor(o: int)
    ensures (o + 1 + 6) % 7 == ((o + 6) % 7 + 1) % 7
  {
  }

  /** Python's ordinals count from 0001-01-01, day 1. */
  lemma FirstOrdinal(d: Date)
    requires d.year == 1 && d.month == 1 && d.day == 1
    ensures ValidDate(d) && Ordinal(d) == 1
  {
    assert DaysBeforeYear(d.year) == 0;
    assert DaysBeforeMonth(d.year, d.month) == 0;
  }

  /** Python's weekday numbering makes day 1, 0001-01-01, a Monday. */
  lemma FirstDayIsMonday(d: Date)
    requires ValidDate(d) && Ordinal(d) == 1
    ensures Weekday(d) == 0
  {
    WeekdayOf(d, 1, 0);
  }

  /** The weekday of a date is its ordinal plus six, reduced modulo seven. */
  lemma WeekdayOf(d: Date, weeks: int, w: int)
    requires ValidDate(d) && 0 <= w < 7 && Ordinal(d) + 6 == 7 * weeks + w
    ensures Weekday(d) == w
  {
    Remainder(Ordinal(d) + 6, weeks, w);
  }

  lemma Remainder(n: int, q: int, r: int)
    requires 0 <= r < 7 && n == 7 * q + r
    ensures n % 7 == r
  {
  }
}
