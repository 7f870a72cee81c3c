/**
 The proleptic Gregorian calendar in UTC, as Go's `time` package reads it.

 Days are counted from 1 January of year 1, which is day 0 and a Monday; years, like days,
 run over all integers.
 */
module Calendar {

  /** Months are 1 to 12 and weekdays 0 (Sunday) to 6, as in Go. */
  datatype Date = Date(year: int, month: int, day: int)

  predicate IsLeap(y: int) {
    y % 4 == 0 && (y % 100 != 0 || y % 400 == 0)
  }

  function YearLength(y: int): int {
    if IsLeap(y) then 366 else 365
  }

  /** The day number of 1 January. */
  function YearStart(y: int): int {
    365 * (y - 1) + (y - 1) / 4 - (y - 1) / 100 + (y - 1) / 400
  }

  lemma NextYearStart(y: int)
    ensures YearStart(y + 1) == YearStart(y) + YearLength(y)
  {
    Fourth(y);
    Hundredth(y);
    FourHundredth(y);
    MultiplesNest(y);
    assert YearStart(y + 1) == 365 * y + y / 4 - y / 100 + y / 400;
  }

  lemma Fourth(y: int)
    ensures y / 4 == (y - 1) / 4 + if y % 4 == 0 then 1 else 0
  {
  }

  lemma Hundredth(y: int)
    ensures y / 100 == (y - 1) / 100 + if y % 100 == 0 then 1 else 0
  {
  }

  lemma FourHundredth(y: int)
    ensures y / 400 == (y - 1) / 400 + if y % 400 == 0 then 1 else 0
  {
  }

  lemma MultiplesNest(y: int)
    ensures y % 400 == 0 ==> y % 100 == 0
    ensures y % 100 == 0 ==> y % 4 == 0
  {
  }

  lemma {:induction false} YearsGrow(y: int, z: int)
    requires y <= z
    ensures YearStart(z) >= YearStart(y) + 365 * (z - y)
    decreases z - y
  {
    if y < z {
      YearsGrow(y, z - 1);
      NextYearStart(z - 1);
    }
  }

  function YearFrom(d: int, y: int): (r: int)
    requires YearStart(y) <= d
    ensures YearStart(r) <= d < YearStart(r + 1)
    decreases d - YearStart(y)
  {
    NextYearStart(y);
    if d < YearStart(y + 1) then y else YearFrom(d, y + 1)
  }

  function YearBefore(d: int, y: int): (r: int)
    requires d < YearStart(y)
    ensures YearStart(r) <= d < YearStart(r + 1)
    decreases YearStart(y) - d
  {
    NextYearStart(y - 1);
    if YearStart(y - 1) <= d then y - 1 else YearBefore(d, y - 1)
  }

  /** The year that contains day `d`. */
  function YearOf(d: int): (y: int)
    ensures YearStart(y) <= d < YearStart(y + 1)
  {
    if d >= YearStart(1) then YearFrom(d, 1) else YearBefore(d, 1)
  }

  lemma YearIsUnique(d: int, y: int)
    requires YearStart(y) <= d < YearStart(y + 1)
    ensures YearOf(d) == y
  {
    hide YearStart;
    var z := YearOf(d);
    if y < z {
      YearsGrow(y + 1, z);
    } else if z < y {
      YearsGrow(z + 1, y);
    }
  }

  /** Days of the year before the first of month `m`, in a year that is leap or not. */
  function MonthStart(m: int, leap: bool): int {
    (if m <= 1 then 0
     else if m == 2 then 31
     else if m == 3 then 59
     else if m == 4 then 90
     else if m == 5 then 120
     else if m == 6 then 151
     else if m == 7 then 181
     else if m == 8 then 212
     else if m == 9 then 243
     else if m == 10 then 273
     else if m == 11 then 304
     else if m == 12 then 334
     else 365)
    + (if leap && m > 2 then 1 else 0)
  }

  function MonthLength(m: int, leap: bool): int {
    MonthStart(m + 1, leap) - MonthStart(m, leap)
  }

  /** The month that contains the `n`-th day of a year, counted from 0. */
  function MonthOf(n: int, leap: bool): (m: int)
    requires 0 <= n < if leap then 366 else 365
    ensures 1 <= m <= 12
    ensures MonthStart(m, leap) <= n < MonthStart(m + 1, leap)
  {
    if n < MonthStart(2, leap) then 1
    else if n < MonthStart(3, leap) then 2
    else if n < MonthStart(4, leap) then 3
    else if n < MonthStart(5, leap) then 4
    else if n < MonthStart(6, leap) then 5
    else if n < MonthStart(7, leap) then 6
    else if n < MonthStart(8, leap) then 7
    else if n < MonthStart(9, leap) then 8
    else if n < MonthStart(10, leap) then 9
    else if n < MonthStart(11, leap) then 10
    else if n < MonthStart(12, leap) then 11
    else 12
  }

  /** The civil date of day `d`. */
  function DateOf(d: int): (r: Date)
    ensures IsDate(r)
  {
    var y := YearOf(d);
    NextYearStart(y);
    var n := d - YearStart(y);
    var m := MonthOf(n, IsLeap(y));
    Date(y, m, n - MonthStart(m, IsLeap(y)) + 1)
  }

  predicate IsDate(t: Date) {
    1 <= t.month <= 12 && 1 <= t.day <= MonthLength(t.month, IsLeap(t.year))
  }

  /** The day number of a civil date. */
  function DayOf(t: Date): int {
    YearStart(t.year) + MonthStart(t.month, IsLeap(t.year)) + t.day - 1
  }

  /** 1 January of year 1 was a Monday. */
  function Weekday(d: int): (w: int)
    ensures 0 <= w <= 6
  {
    (d + 1) % 7
  }

  /** Dates and day numbers determine each other. */
  lemma DateOfDay(t: Date)
    requires IsDate(t)
    ensures DateOf(DayOf(t)) == t
  {
    hide YearStart, IsLeap, MonthStart, MonthOf;
    NextYearStart(t.year);
    MonthsFit(t.month, IsLeap(t.year));
    YearIsUnique(DayOf(t), t.year);
    MonthIsUnique(DayOf(t) - YearStart(t.year), t.month, IsLeap(t.year));
  }

  lemma MonthIsUnique(n: int, m: int, leap: bool)
    requires 1 <= m <= 12 && 0 <= n < if leap then 366 else 365
    requires MonthStart(m, leap) <= n < MonthStart(m + 1, leap)
    ensures MonthOf(n, leap) == m
  {
  }

  lemma MonthsFit(m: int, leap: bool)
    requires 1 <= m <= 12
    ensures 0 <= MonthStart(m, leap)
    ensures MonthStart(m, leap) + MonthLength(m, leap) <= if leap then 366 else 365
    ensures 28 <= MonthLength(m, leap) <= 31
  {
  }

  lemma DayOfDate(d: int)
    ensures DayOf(DateOf(d)) == d
  {
  }

  /** Thirty days hath September. */
  lemma MonthLengths(m: int, leap: bool)
    requires 1 <= m <= 12
    ensures MonthLength(m, leap) ==
              if m == 4 || m == 6 || m == 9 || m == 11 then 30
              else if m == 2 then if leap then 29 else 28
              else 31
  {
  }

  /**
   One more day is the next day of the month, or the first of the next month, or of the next year. The
   last day of a month is the 31st or the 30th, and that of February the 29th in leap years.
   */
  lemma NextDay(d: int)
    ensures var t := DateOf(d);
            var leap := t.year % 4 == 0 && (t.year % 100 != 0 || t.year % 400 == 0);
            var last := if t.month in {4, 6, 9, 11} then 30 else if t.month != 2 then 31 else if leap then 29 else 28;
            && 1 <= t.month <= 12 && 1 <= t.day <= last
            && DateOf(d + 1) ==
                 if t.day < last then Date(t.year, t.month, t.day + 1)
                 else if t.month < 12 then Date(t.year, t.month + 1, 1)
                 else Date(t.year + 1, 1, 1)
  {
    var t := DateOf(d);
    var leap := IsLeap(t.year);
    hide YearStart, MonthOf, DateOf;
    NextYearStart(t.year);
    DayOfDate(d);
    MonthLengths(t.month, leap);
    if t.day < MonthLength(t.month, leap) {
      DateOfDay(t.(day := t.day + 1));
    } else if t.month < 12 {
      MonthLengths(t.month + 1, leap);
      DateOfDay(Date(t.year, t.month + 1, 1));
    } else {
      DateOfDay(Date(t.year + 1, 1, 1));
    }
  }

  /** Four hundred years have 146097 days, a whole number of weeks, and the calendar repeats after them. */
  lemma CalendarRepeats(d: int)
    ensures Weekday(d + 146097) == Weekday(d)
    ensures var t := DateOf(d); DateOf(d + 146097) == Date(t.year + 400, t.month, t.day)
  {
    WeeksRepeat(d);
    var t := DateOf(d);
    DayOfDate(d);
    FourCenturies(t.year);
    LeapYearsRepeat(t.year);
    hide YearStart, IsLeap, DateOf, Weekday;
    DateOfDay(Date(t.year + 400, t.month, t.day));
  }

  lemma WeeksRepeat(d: int)
    ensures Weekday(d + 146097) == Weekday(d)
  {
  }

  lemma LeapYearsRepeat(y: int)
    ensures IsLeap(y + 400) == IsLeap(y)
  {
    Shift400(y);
  }

  lemma FourCenturies(y: int)
    ensures YearStart(y + 400) == YearStart(y) + 146097
  {
    Shift400(y - 1);
    var x := y - 1;
    assert YearStart(y + 400) == 365 * (x + 400) + (x + 400) / 4 - (x + 400) / 100 + (x + 400) / 400;
  }

  lemma Shift400(x: int)
    ensures (x + 400) / 4 == x / 4 + 100 && (x + 400) % 4 == x % 4
    ensures (x + 400) / 100 == x / 100 + 4 && (x + 400) % 100 == x % 100
    ensures (x + 400) / 400 == x / 400 + 1 && (x + 400) % 400 == x % 400
  {
  }

  /** A year is a leap year if its number divides by 4, but not by 100 unless by 400: 365 or 366 days. */
  lemma YearLengths(y: int)
    ensures DayOf(Date(y + 1, 1, 1)) - DayOf(Date(y, 1, 1)) ==
              if y % 400 == 0 then 366 else if y % 100 == 0 then 365 else if y % 4 == 0 then 366 else 365
  {
    NextYearStart(y);
    MultiplesNest(y);
    hide YearStart;
  }

  /** Where the count of days starts, and that weekdays follow one another. */
  lemma DayZero(d: int)
    ensures DateOf(0) == Date(1, 1, 1) && Weekday(0) == 1
    ensures Weekday(d + 1) == (Weekday(d) + 1) % 7
  {
    hide DateOf;
    DateOfDay(Date(1, 1, 1));
  }
}
