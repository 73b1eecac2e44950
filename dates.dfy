/** Calendar dates as Python's `datetime.date` has them: the proleptic
    Gregorian calendar, years 1 to 9999, lexicographic ordering, and
    day-by-day arithmetic standing for `timedelta(days=n)`. */
module Dates {

  const MinYear: int := 1
  const MaxYear: int := 9999

  datatype Date = Date(year: int, month: int, day: int)

  /** A `datetime.datetime`; only the fields the modelled parsing can set. */
  datatype DateTime = DateTime(date: Date, hour: nat, minute: nat)

  predicate IsLeapYear(y: int)
  {
    y % 4 == 0 && (y % 100 != 0 || y % 400 == 0)
  }

  function DaysInMonth(y: int, m: int): (n: int)
    requires 1 <= m <= 12
    ensures 28 <= n <= 31
    ensures n == 29 <==> m == 2 && IsLeapYear(y)
  {
    if m == 2 then (if IsLeapYear(y) then 29 else 28)
    else if m == 4 || m == 6 || m == 9 || m == 11 then 30
    else 31
  }

  /** A day of some month of some year (the year unbounded). */
  predicate IsCalendarDay(d: Date)
  {
    1 <= d.month <= 12 && 1 <= d.day <= DaysInMonth(d.year, d.month)
  }

  /** A value `datetime.date` can hold. */
  predicate IsValid(d: Date)
  {
    MinYear <= d.year <= MaxYear && IsCalendarDay(d)
  }

  /** `a <= b` on dates. */
  predicate LessEq(a: Date, b: Date)
  {
    a.year < b.year
    || (a.year == b.year && a.month < b.month)
    || (a.year == b.year && a.month == b.month && a.day <= b.day)
  }

  lemma LessEqTransitive(a: Date, b: Date, c: Date)
    requires LessEq(a, b) && LessEq(b, c)
    ensures LessEq(a, c)
  {
  }

  /** The following day. */
  function NextDay(d: Date): (r: Date)
    requires IsCalendarDay(d)
    ensures IsCalendarDay(r) && LessEq(d, r) && r != d
  {
    if d.day < DaysInMonth(d.year, d.month) then Date(d.year, d.month, d.day + 1)
    else if d.month < 12 then Date(d.year, d.month + 1, 1)
    else Date(d.year + 1, 1, 1)
  }

  /** The preceding day. */
  function PrevDay(d: Date): (r: Date)
    requires IsCalendarDay(d)
    ensures IsCalendarDay(r) && LessEq(r, d) && r != d
  {
    if d.day > 1 then Date(d.year, d.month, d.day - 1)
    else if d.month > 1 then Date(d.year, d.month - 1, DaysInMonth(d.year, d.month - 1))
    else Date(d.year - 1, 12, 31)
  }

  /** `d + timedelta(days=n)`, before the year-range check. */
  function AddDays(d: Date, n: nat): (r: Date)
    requires IsCalendarDay(d)
    ensures IsCalendarDay(r) && LessEq(d, r)
    decreases n
  {
    if n == 0 then d
    else
      var r := AddDays(NextDay(d), n - 1);
      LessEqTransitive(d, NextDay(d), r);
      r
  }

  /** `d - timedelta(days=n)`, before the year-range check. */
  function SubDays(d: Date, n: nat): (r: Date)
    requires IsCalendarDay(d)
    ensures IsCalendarDay(r) && LessEq(r, d)
    decreases n
  {
    if n == 0 then d
    else
      var r := SubDays(PrevDay(d), n - 1);
      LessEqTransitive(r, PrevDay(d), d);
      r
  }
}
