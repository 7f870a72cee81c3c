/**
 When a parsed cron expression fires: `Matches`, the bounded search `NextAfter`, and the exact
 condition under which that search finds a minute from every starting time.

 Instants are nanoseconds, and minutes are counted, from Go's zero time, 00:00 UTC on 1 January of
 year 1.
 */
module CronTime {
  import opened Bitset
  import opened Calendar

  const NANOS_PER_MINUTE: int := 60_000_000_000
  const MINUTES_PER_DAY: int := 1440
  const SEARCH_DAYS: int := 366

  /** `366 * 24 * 60` */
  const MAX_ITER: int := SEARCH_DAYS * MINUTES_PER_DAY

  datatype CronExpr = CronExpr(minute: bv64, hour: bv64, dayMonth: bv64, month: bv64, dayWeek: bv64, raw: string)

  predicate TimeMatches(c: CronExpr, minuteOfDay: int)
    requires 0 <= minuteOfDay < MINUTES_PER_DAY
  {
    HasBit(c.minute, minuteOfDay % 60) && HasBit(c.hour, minuteOfDay / 60)
  }

  predicate DayMatches(c: CronExpr, d: int) {
    var t := DateOf(d);
    MonthsFit(t.month, IsLeap(t.year));
    HasBit(c.dayMonth, t.day) && HasBit(c.month, t.month) && HasBit(c.dayWeek, Weekday(d))
  }

  /** `CronExpr.Matches` at the start of minute `m`. */
  predicate Matches(c: CronExpr, m: int) {
    var t := DateOf(m / MINUTES_PER_DAY);
    MonthsFit(t.month, IsLeap(t.year));
    && HasBit(c.minute, m % 60)
    && HasBit(c.hour, m / 60 % 24)
    && HasBit(c.dayMonth, t.day)
    && HasBit(c.month, t.month)
    && HasBit(c.dayWeek, Weekday(m / MINUTES_PER_DAY))
  }

  lemma ClockOfMinute(d: int, s: int)
    requires 0 <= s < MINUTES_PER_DAY
    ensures var m := d * MINUTES_PER_DAY + s;
            m / MINUTES_PER_DAY == d && m % MINUTES_PER_DAY == s && m % 60 == s % 60 && m / 60 % 24 == s / 60
  {
    DayOfMinute(d, s);
    HourOfMinute(d, s);
    HourOfDay(d, s / 60);
  }

  lemma DayOfMinute(d: int, s: int)
    requires 0 <= s < 1440
    ensures (d * 1440 + s) / 1440 == d && (d * 1440 + s) % 1440 == s
  {
  }

  lemma HourOfMinute(d: int, s: int)
    requires 0 <= s < 1440
    ensures (d * 1440 + s) / 60 == d * 24 + s / 60 && (d * 1440 + s) % 60 == s % 60
  {
    assert d * 1440 + s == (d * 24 + s / 60) * 60 + s % 60;
  }

  lemma HourOfDay(d: int, h: int)
    requires 0 <= h < 24
    ensures (d * 24 + h) % 24 == h
  {
  }

  lemma MatchesSplits(c: CronExpr, d: int, minuteOfDay: int)
    requires 0 <= minuteOfDay < MINUTES_PER_DAY
    ensures (d * MINUTES_PER_DAY + minuteOfDay) / MINUTES_PER_DAY == d
    ensures (d * MINUTES_PER_DAY + minuteOfDay) % MINUTES_PER_DAY == minuteOfDay
    ensures Matches(c, d * MINUTES_PER_DAY + minuteOfDay) <==> TimeMatches(c, minuteOfDay) && DayMatches(c, d)
  {
    ClockOfMinute(d, minuteOfDay);
    hide DateOf, Weekday, HasBit;
  }

  /** A minute matches exactly if each bitset holds its part of the civil date and time. */
  lemma MatchesCivilTime(c: CronExpr, t: Date, hour: nat, minute: nat)
    requires IsDate(t) && hour < 24 && minute < 60
    ensures t.day < 64
    ensures Matches(c, DayOf(t) * 1440 + hour * 60 + minute) <==>
              && HasBit(c.minute, minute) && HasBit(c.hour, hour)
              && HasBit(c.dayMonth, t.day) && HasBit(c.month, t.month)
              && HasBit(c.dayWeek, Weekday(DayOf(t)))
  {
    hide Matches, HasBit, DateOf, DayOf, Weekday, MonthStart, IsLeap;
    MonthsFit(t.month, IsLeap(t.year));
    DateOfDay(t);
    HourAndMinute(hour, minute);
    MatchesSplits(c, DayOf(t), hour * 60 + minute);
    assert TimeMatches(c, hour * 60 + minute) <==> HasBit(c.minute, minute) && HasBit(c.hour, hour);
    hide TimeMatches;
  }

  lemma HourAndMinute(hour: nat, minute: nat)
    requires hour < 24 && minute < 60
    ensures var s := hour * 60 + minute; s < 1440 && s % 60 == minute && s / 60 == hour
  {
  }

  // ------------------------------------------------------------- the search

  /** The first minute that starts after instant `t`. */
  function FirstMinute(t: int): int {
    t / NANOS_PER_MINUTE + 1
  }

  /** A matching minute that the search started at minute `from` can reach. */
  ghost predicate Reachable(c: CronExpr, from: int, m: int) {
    from <= m < from + MAX_ITER && Matches(c, m)
  }

  ghost predicate Finds(c: CronExpr, from: int) {
    exists m :: Reachable(c, from, m)
  }

  /** `NextAfter`: the first matching minute after `t`, or the zero time when 366 days hold none. */
  method NextAfter(c: CronExpr, t: int) returns (next: int)
    ensures Finds(c, FirstMinute(t)) ==>
              && Reachable(c, FirstMinute(t), next)
              && forall m :: FirstMinute(t) <= m < next ==> !Matches(c, m)
    ensures !Finds(c, FirstMinute(t)) ==> next == 0
    ensures var first := t / 60_000_000_000 + 1;
            if exists m :: first <= m < first + 527_040 && Matches(c, m) then
              first <= next < first + 527_040 && Matches(c, next) && forall m :: first <= m < next ==> !Matches(c, m)
            else next == 0
  {
    hide Matches;
    next := t / NANOS_PER_MINUTE + 1;
    for i := 0 to MAX_ITER
      invariant next == FirstMinute(t) + i
      invariant forall m :: FirstMinute(t) <= m < next ==> !Matches(c, m)
    {
      if Matches(c, next) {
        assert Reachable(c, FirstMinute(t), next);
        return;
      }
      next := next + 1;
    }
    next := 0;
  }

  /** The search succeeds from every instant. */
  ghost predicate AlwaysFinds(c: CronExpr) {
    forall t: int :: Finds(c, FirstMinute(t))
  }

  // ------------------------------------------------ minutes reduced to days

  ghost predicate HasTime(c: CronExpr) {
    exists s :: 0 <= s < MINUTES_PER_DAY && TimeMatches(c, s)
  }

  ghost predicate DayWithin(c: CronExpr, first: int, d: int) {
    first <= d < first + SEARCH_DAYS && DayMatches(c, d)
  }

  /** One of the 366 days from `first` matches. */
  ghost predicate HasDay(c: CronExpr, first: int) {
    exists d :: DayWithin(c, first, d)
  }

  lemma FindsIfDaysMatch(c: CronExpr, from: int, s: int)
    requires 0 <= s < MINUTES_PER_DAY && TimeMatches(c, s)
    requires HasDay(c, from / MINUTES_PER_DAY) && HasDay(c, from / MINUTES_PER_DAY + 1)
    ensures Finds(c, from)
  {
    hide DayMatches, TimeMatches, Matches;
    var q, r := from / MINUTES_PER_DAY, from % MINUTES_PER_DAY;
    var first := if r <= s then q else q + 1;
    var d :| DayWithin(c, first, d);
    MatchesSplits(c, d, s);
    assert Reachable(c, from, d * MINUTES_PER_DAY + s);
  }

  lemma MinuteOfMatch(c: CronExpr, m: int)
    requires Matches(c, m)
    ensures TimeMatches(c, m % MINUTES_PER_DAY) && DayMatches(c, m / MINUTES_PER_DAY)
  {
    hide DayMatches, TimeMatches, Matches;
    MatchesSplits(c, m / MINUTES_PER_DAY, m % MINUTES_PER_DAY);
  }

  lemma DaysMatchIfFinds(c: CronExpr, first: int)
    requires AlwaysFinds(c)
    ensures HasTime(c) && HasDay(c, first)
  {
    hide DayMatches, TimeMatches, Matches;
    var from := first * MINUTES_PER_DAY;
    var t := (from - 1) * NANOS_PER_MINUTE;
    assert FirstMinute(t) == from;
    assert Finds(c, FirstMinute(t));
    var m :| Reachable(c, from, m);
    MinuteOfMatch(c, m);
    assert DayWithin(c, first, m / MINUTES_PER_DAY);
  }

  /** The search always succeeds just when some time of day and some day in every 366 match. */
  lemma AlwaysFindsByDays(c: CronExpr)
    ensures AlwaysFinds(c) <==> HasTime(c) && forall first: int :: HasDay(c, first)
  {
    hide DayMatches, TimeMatches, Matches, HasDay;
    if AlwaysFinds(c) {
      forall first: int
        ensures HasTime(c) && HasDay(c, first)
      {
        DaysMatchIfFinds(c, first);
      }
      DaysMatchIfFinds(c, 0);
    }
    if HasTime(c) && forall first: int :: HasDay(c, first) {
      var s :| 0 <= s < MINUTES_PER_DAY && TimeMatches(c, s);
      forall t: int
        ensures Finds(c, FirstMinute(t))
      {
        assert HasDay(c, FirstMinute(t) / MINUTES_PER_DAY) && HasDay(c, FirstMinute(t) / MINUTES_PER_DAY + 1);
        FindsIfDaysMatch(c, FirstMinute(t), s);
      }
    }
  }

  // -------------------------------------------- any weekday: which dates recur

  predicate EveryWeekday(c: CronExpr) {
    forall w :: 0 <= w <= 6 ==> HasBit(c.dayWeek, w)
  }

  /** A selected day that its selected month has in every year. */
  predicate YearlyDate(c: CronExpr, month: int, day: int) {
    1 <= month <= 12 && 1 <= day <= MonthLength(month, false) && day <= 31
    && HasBit(c.month, month) && HasBit(c.dayMonth, day)
  }

  lemma DayMatchesDate(c: CronExpr, t: Date)
    requires IsDate(t)
    ensures 0 <= t.day < 64 && 0 <= t.month < 64
    ensures DayMatches(c, DayOf(t)) <==>
              HasBit(c.dayMonth, t.day) && HasBit(c.month, t.month) && HasBit(c.dayWeek, Weekday(DayOf(t)))
  {
    MonthsFit(t.month, IsLeap(t.year));
    DateOfDay(t);
  }

  lemma DateWithinYear(t: Date)
    requires IsDate(t)
    ensures YearStart(t.year) <= DayOf(t) < YearStart(t.year + 1)
    ensures YearStart(t.year + 1) <= YearStart(t.year) + 366
  {
    hide YearStart, IsLeap, MonthStart;
    NextYearStart(t.year);
    MonthsFit(t.month, IsLeap(t.year));
  }

  /** The same date a year later, unless it is 29 February. */
  lemma SameDateNextYear(y: int, month: int, day: int)
    requires 1 <= month <= 12 && 1 <= day <= MonthLength(month, false)
    ensures IsDate(Date(y, month, day)) && IsDate(Date(y + 1, month, day))
    ensures DayOf(Date(y, month, day)) < DayOf(Date(y + 1, month, day)) <= DayOf(Date(y, month, day)) + 366
  {
    hide YearStart;
    NextYearStart(y);
    NextYearStart(y + 1);
    assert IsLeap(y) ==> !IsLeap(y + 1);
  }

  /** Any date but 29 February comes round within 366 days. */
  lemma YearlyDateRecurs(first: int, month: int, day: int) returns (t: Date)
    requires 1 <= month <= 12 && 1 <= day <= MonthLength(month, false)
    ensures IsDate(t) && t.month == month && t.day == day
    ensures first <= DayOf(t) < first + SEARCH_DAYS
  {
    hide DayOf, MonthStart, YearStart;
    var y := YearOf(first);
    SameDateNextYear(y, month, day);
    DateWithinYear(Date(y, month, day));
    DateWithinYear(Date(y + 1, month, day));
    t := Date(y, month, day);
    if DayOf(t) < first {
      t := Date(y + 1, month, day);
    }
  }

  /** Every date of the 366 days from 1 March 2021 exists in a common year. */
  lemma YearWithoutLeapDay(d: int)
    requires 0 <= d - DayOf(Date(2021, 3, 1)) < SEARCH_DAYS
    ensures !IsLeap(DateOf(d).year)
  {
    assert YearStart(2021) == 737790 && YearStart(2022) == 738155 && YearStart(2023) == 738520;
    YearIsUnique(d, if d < YearStart(2022) then 2021 else 2022);
  }

  /**
   With an unrestricted day of week, the search succeeds from every instant if and only if some
   selected month and day meet in every year.
   */
  lemma AlwaysFindsAnyWeekday(c: CronExpr)
    requires EveryWeekday(c)
    ensures AlwaysFinds(c) <==> HasTime(c) && exists month, day :: YearlyDate(c, month, day)
  {
    hide DayMatches, TimeMatches, Matches, HasBit;
    AlwaysFindsByDays(c);
    if month, day :| YearlyDate(c, month, day) {
      forall first: int
        ensures HasDay(c, first)
      {
        var t := YearlyDateRecurs(first, month, day);
        DayMatchesDate(c, t);
        assert DayWithin(c, first, DayOf(t));
      }
    }
    if AlwaysFinds(c) {
      var first := DayOf(Date(2021, 3, 1));
      assert HasDay(c, first);
      var d :| DayWithin(c, first, d);
      var t := DateOf(d);
      DayOfDate(d);
      DayMatchesDate(c, t);
      YearWithoutLeapDay(d);
      MonthsFit(t.month, false);
      assert YearlyDate(c, t.month, t.day);
    }
  }

  // ------------------------------------- any day of the month: weekdays recur

  predicate EveryMonthDay(c: CronExpr) {
    forall day :: 1 <= day <= 31 ==> HasBit(c.dayMonth, day)
  }

  /** Seven days in a row contain every weekday. */
  function WeekdayFrom(first: int, w: int): (d: int)
    requires 0 <= w <= 6
    ensures first <= d < first + 7 && Weekday(d) == w
  {
    first + (w - Weekday(first)) % 7
  }

  /** Each weekday occurs in each month within 366 days, in its last or its first week. */
  lemma WeekdayRecursInMonth(first: int, month: int, w: int) returns (t: Date)
    requires 1 <= month <= 12 && 0 <= w <= 6
    ensures IsDate(t) && t.month == month && Weekday(DayOf(t)) == w
    ensures first <= DayOf(t) < first + SEARCH_DAYS
  {
    hide YearStart, IsLeap, MonthStart, Weekday;
    var y := YearOf(first);
    MonthsFit(month, IsLeap(y));
    MonthsFit(month, IsLeap(y + 1));
    MonthsFit(month, false);
    SameDateNextYear(y, month, 22);
    var start := Date(y, month, 22);
    DateWithinYear(start);
    if DayOf(start) < first {
      start := Date(y + 1, month, 1);
    }
    t := start.(day := start.day + WeekdayFrom(DayOf(start), w) - DayOf(start));
    DateWithinYear(t);
  }

  /**
   With an unrestricted day of month, the search succeeds from every instant if and only if a month
   and a weekday are selected at all.
   */
  lemma AlwaysFindsAnyMonthDay(c: CronExpr)
    requires EveryMonthDay(c)
    ensures AlwaysFinds(c) <==>
              && HasTime(c)
              && (exists month :: 1 <= month <= 12 && HasBit(c.month, month))
              && (exists w :: 0 <= w <= 6 && HasBit(c.dayWeek, w))
  {
    hide DayMatches, TimeMatches, Matches, HasBit, Weekday;
    AlwaysFindsByDays(c);
    if (exists month :: 1 <= month <= 12 && HasBit(c.month, month))
       && (exists w :: 0 <= w <= 6 && HasBit(c.dayWeek, w)) {
      var month :| 1 <= month <= 12 && HasBit(c.month, month);
      var w :| 0 <= w <= 6 && HasBit(c.dayWeek, w);
      forall first: int
        ensures HasDay(c, first)
      {
        var t := WeekdayRecursInMonth(first, month, w);
        MonthsFit(month, IsLeap(t.year));
        DayMatchesDate(c, t);
        assert DayWithin(c, first, DayOf(t));
      }
    }
    if AlwaysFinds(c) {
      assert HasDay(c, 0);
      var d :| DayWithin(c, 0, d);
      DayOfDate(d);
      DayMatchesDate(c, DateOf(d));
    }
  }

  // --------------------------------- any expression: 28 years decide them all

  /** A year between 2001 and 2028 with the same first weekday, length and next length. */
  function YearLike(weekday: int, leap: bool, nextLeap: bool): int {
    if leap then
      if weekday == 0 then 2012 else if weekday == 1 then 2024 else if weekday == 2 then 2008
      else if weekday == 3 then 2020 else if weekday == 4 then 2004 else if weekday == 5 then 2016 else 2028
    else if nextLeap then
      if weekday == 0 then 2023 else if weekday == 1 then 2007 else if weekday == 2 then 2019
      else if weekday == 3 then 2003 else if weekday == 4 then 2015 else if weekday == 5 then 2027 else 2011
    else
      if weekday == 0 then 2006 else if weekday == 1 then 2001 else if weekday == 2 then 2002
      else if weekday == 3 then 2014 else if weekday == 4 then 2009 else if weekday == 5 then 2010 else 2005
  }

  predicate SameShape(y: int, z: int) {
    && Weekday(YearStart(y)) == Weekday(YearStart(z))
    && IsLeap(y) == IsLeap(z)
    && IsLeap(y + 1) == IsLeap(z + 1)
  }

  lemma YearLikeIsAlike(y: int)
    ensures var z := YearLike(Weekday(YearStart(y)), IsLeap(y), IsLeap(y + 1));
            2001 <= z <= 2028 && SameShape(y, z)
  {
    assert IsLeap(y) ==> !IsLeap(y + 1);
    var w := Weekday(YearStart(y));
    YearLikeFits(w, IsLeap(y), IsLeap(y + 1));
  }

  /** Within 2001 to 2099 every fourth year is leap. */
  lemma JulianYears(z: int)
    requires 2001 <= z <= 2029
    ensures IsLeap(z) <==> z in {2004, 2008, 2012, 2016, 2020, 2024, 2028}
    ensures YearStart(z) == 730485 + 365 * (z - 2001) + (z - 2001) / 4
  {
  }

  lemma YearLikeFits(w: int, leap: bool, nextLeap: bool)
    requires 0 <= w <= 6 && !(leap && nextLeap)
    ensures var z := YearLike(w, leap, nextLeap);
            2001 <= z <= 2028 && Weekday(YearStart(z)) == w && IsLeap(z) == leap && IsLeap(z + 1) == nextLeap
  {
    hide IsLeap, YearStart;
    var z := YearLike(w, leap, nextLeap);
    JulianYears(z);
    JulianYears(z + 1);
  }

  lemma WeekdayShift(a: int, b: int, n: int)
    requires Weekday(a) == Weekday(b)
    ensures Weekday(a + n) == Weekday(b + n)
  {
    var k := (a + 1) / 7 - (b + 1) / 7;
    assert a - b == 7 * k;
    WholeWeeks(b + n, k);
  }

  lemma WholeWeeks(d: int, k: int)
    ensures Weekday(d + 7 * k) == Weekday(d)
  {
  }

  /** Two years of the same shape agree, day by day, for two years. */
  lemma SameShapeSameDays(c: CronExpr, y: int, z: int, n: int)
    requires SameShape(y, z) && 0 <= n < YearLength(y) + YearLength(y + 1)
    ensures DayMatches(c, YearStart(y) + n) <==> DayMatches(c, YearStart(z) + n)
  {
    hide HasBit, Weekday, MonthStart, DayMatches, YearStart, IsLeap;
    WeekdayShift(YearStart(y), YearStart(z), n);
    NextYearStart(y);
    NextYearStart(z);
    NextYearStart(y + 1);
    NextYearStart(z + 1);
    var next := n >= YearLength(y);
    YearIsUnique(YearStart(y) + n, if next then y + 1 else y);
    YearIsUnique(YearStart(z) + n, if next then z + 1 else z);
    SameDateSameMatch(c, YearStart(y) + n, YearStart(z) + n);
  }

  lemma SameDateSameMatch(c: CronExpr, d: int, e: int)
    requires DateOf(d).month == DateOf(e).month && DateOf(d).day == DateOf(e).day && Weekday(d) == Weekday(e)
    ensures DayMatches(c, d) <==> DayMatches(c, e)
  {
    MonthsFit(DateOf(d).month, IsLeap(DateOf(d).year));
    hide DateOf, Weekday;
  }

  lemma HasDayInLikeYear(c: CronExpr, y: int, z: int, n: int)
    requires SameShape(y, z) && 0 <= n < YearLength(y) && HasDay(c, YearStart(z) + n)
    ensures HasDay(c, YearStart(y) + n)
  {
    hide HasBit, Weekday, DayMatches, YearStart, SameShape;
    var e :| DayWithin(c, YearStart(z) + n, e);
    assert IsLeap(y) ==> !IsLeap(y + 1);
    SameShapeSameDays(c, y, z, e - YearStart(z));
    assert DayWithin(c, YearStart(y) + n, e - YearStart(z) + YearStart(y));
  }

  /**
   For any expression whatever, trying the starting days of the 28 years from 2001 decides whether
   the search succeeds from every instant.
   */
  lemma AlwaysFindsIfIn28Years(c: CronExpr)
    ensures AlwaysFinds(c) <==>
              HasTime(c) && forall first :: YearStart(2001) <= first < YearStart(2029) ==> HasDay(c, first)
  {
    hide DayMatches, TimeMatches, Matches, HasDay, SameShape, YearLike;
    AlwaysFindsByDays(c);
    if forall first :: YearStart(2001) <= first < YearStart(2029) ==> HasDay(c, first) {
      forall first: int
        ensures HasDay(c, first)
      {
        var y := YearOf(first);
        var z := YearLike(Weekday(YearStart(y)), IsLeap(y), IsLeap(y + 1));
        YearLikeIsAlike(y);
        LikeDayIn28Years(y, z, first - YearStart(y));
        assert HasDay(c, YearStart(z) + (first - YearStart(y)));
        HasDayInLikeYear(c, y, z, first - YearStart(y));
      }
    }
  }

  lemma LikeDayIn28Years(y: int, z: int, n: int)
    requires SameShape(y, z) && 2001 <= z <= 2028 && 0 <= n < YearStart(y + 1) - YearStart(y)
    ensures 0 <= n < YearLength(y)
    ensures YearStart(2001) <= YearStart(z) + n < YearStart(2029)
  {
    NextYearStart(y);
    NextYearStart(z);
    YearsGrow(2001, z);
    YearsGrow(z + 1, 2029);
  }

  // ---------------------------------------------- expressions that can fail

  predicate OnlyFebruary(c: CronExpr) {
    forall month :: 1 <= month <= 12 && HasBit(c.month, month) ==> month == 2
  }

  /** "0 0 30 2 *": no February has a 30th, so no search succeeds. */
  lemma February30Fails(c: CronExpr, from: int)
    requires OnlyFebruary(c)
    requires forall day :: 1 <= day <= 29 ==> !HasBit(c.dayMonth, day)
    ensures !Finds(c, from)
  {
    if m :| Reachable(c, from, m) {
      hide HasBit, Weekday;
      var t := DateOf(m / MINUTES_PER_DAY);
      MonthsFit(t.month, IsLeap(t.year));
      assert t.month == 2;
    }
  }

  /** "0 0 29 2 *": the leap day alone is not found from the start of March 2021. */
  lemma LeapDayAloneFails(c: CronExpr)
    requires OnlyFebruary(c)
    requires forall day :: 1 <= day <= 28 ==> !HasBit(c.dayMonth, day)
    ensures !Finds(c, DayOf(Date(2021, 3, 1)) * MINUTES_PER_DAY)
  {
    var first := DayOf(Date(2021, 3, 1));
    if m :| Reachable(c, first * MINUTES_PER_DAY, m) {
      hide HasBit, Weekday;
      var t := DateOf(m / MINUTES_PER_DAY);
      MonthsFit(t.month, IsLeap(t.year));
      YearWithoutLeapDay(m / MINUTES_PER_DAY);
      assert t.month == 2;
    }
  }

  /** "0 0 13 * 5": no Friday the 13th falls in the 366 days from 14 July 2001. */
  lemma FridayThe13thFails(c: CronExpr)
    requires forall day :: 1 <= day <= 31 && HasBit(c.dayMonth, day) ==> day == 13
    requires forall w :: 0 <= w <= 6 && HasBit(c.dayWeek, w) ==> w == 5
    ensures !Finds(c, DayOf(Date(2001, 7, 14)) * MINUTES_PER_DAY)
  {
    var first := DayOf(Date(2001, 7, 14));
    if m :| Reachable(c, first * MINUTES_PER_DAY, m) {
      var d := m / MINUTES_PER_DAY;
      var t := DateOf(d);
      DayOfDate(d);
      MonthsFit(t.month, IsLeap(t.year));
      hide HasBit, Weekday, DayOf, DateOf;
      assert t.day == 13 && Weekday(d) == 5;
      NoFridayThe13th(t);
    }
  }

  lemma NoFridayThe13th(t: Date)
    requires IsDate(t) && t.day == 13
    requires 0 <= DayOf(t) - DayOf(Date(2001, 7, 14)) < SEARCH_DAYS
    ensures Weekday(DayOf(t)) != 5
  {
    JulianYears(2001);
    JulianYears(2002);
    JulianYears(2003);
    hide YearStart, IsLeap, Weekday, YearOf;
    var d := DayOf(t);
    NextYearStart(t.year);
    MonthsFit(t.month, IsLeap(t.year));
    if t.year < 2001 {
      YearsGrow(t.year + 1, 2001);
    } else if t.year > 2002 {
      YearsGrow(2003, t.year);
    }
    assert d == 730485 + 365 * (t.year - 2001) + MonthStart(t.month, false) + 12;
    Thirteenths(t.year, t.month);
  }

  lemma Thirteenths(y: int, m: int)
    requires (y == 2001 && 8 <= m <= 12) || (y == 2002 && 1 <= m <= 7)
    ensures Weekday(730485 + 365 * (y - 2001) + MonthStart(m, false) + 12) != 5
  {
  }
}
