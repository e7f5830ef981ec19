/** Dates from day numbers by arithmetic alone, with the year starting in March
  * so that a leap day comes last.
  */
module CivilDate {
  import opened Calendar

  const DAYS_PER_ERA := 146_097
  const MARCH_YEAR_ZERO := 719_468

  // ----- day number to date, by division

  function YearOfEra(doe: int): int {
    (doe - doe / 1460 + doe / 36_524 - doe / 146_096) / 365
  }

  /** First day of a March-based year, counted in its era. */
  function YearStart(yoe: int): int { 365 * yoe + yoe / 4 - yoe / 100 }

  /** First day of a month, counted from 1 March; `mp` is 0 for March. */
  function MonthStart(mp: int): int { (153 * mp + 2) / 5 }

  function MonthFromMarch(mp: int): int { if mp < 10 then mp + 3 else mp - 9 }

  /** The calendar date of a day of a March-based year. */
  function FromMarch(y: int, doy: int): Date {
    var mp := (5 * doy + 2) / 153;
    var m := MonthFromMarch(mp);
    Date(if m <= 2 then y + 1 else y, m, doy - MonthStart(mp) + 1)
  }

  /** The date of a day, counted from 1970-01-01. */
  function Civil(days: int): Date {
    var z := days + MARCH_YEAR_ZERO;
    var era, doe := z / DAYS_PER_ERA, z % DAYS_PER_ERA;
    var yoe := YearOfEra(doe);
    FromMarch(yoe + era * 400, doe - YearStart(yoe))
  }

  // ----- the inverse: counting the days before a date

  function MonthSinceMarch(month: int): int { if month > 2 then month - 3 else month + 9 }

  function MarchYear(d: Date): int { if d.month > 2 then d.year else d.year - 1 }

  function DayOfMarchYear(d: Date): int { MonthStart(MonthSinceMarch(d.month)) + d.day - 1 }

  /** The days before a March-based year, counted from year zero. */
  function DaysBefore(y: int): int { (y / 400) * DAYS_PER_ERA + YearStart(y % 400) }

  function DayNumber(d: Date): int {
    DaysBefore(MarchYear(d)) + DayOfMarchYear(d) - MARCH_YEAR_ZERO
  }

  // ----- years of an era

  /** The last day of a March-based year is its leap day, if it has one. */
  function LastDayOfYear(yoe: int): int { if IsLeap(yoe + 1) then 365 else 364 }

  /** Day `doe` of an era, by century `c`, group of four years `q`, year `r` and
    * day `t`.
    */
  predicate Splits(doe: int, c: int, q: int, r: int, t: int) {
    && 0 <= c < 4 && 0 <= q < 25 && 0 <= r < 4
    && 0 <= t <= (if r == 3 && (q < 24 || c == 3) then 365 else 364)
    && doe == 36_524 * c + 1461 * q + 365 * r + t
  }

  lemma SplitDay(doe: int) returns (c: int, q: int, r: int, t: int)
    requires 0 <= doe < DAYS_PER_ERA
    ensures Splits(doe, c, q, r, t)
  {
    c := if doe < 146_096 then doe / 36_524 else 3;
    var inCentury := doe - 36_524 * c;
    q := inCentury / 1461;
    var inGroup := inCentury - 1461 * q;
    r := if inGroup < 1460 then inGroup / 365 else 3;
    t := inGroup - 365 * r;
  }

  lemma YearOfSplit(doe: int, c: int, q: int, r: int, t: int)
    requires Splits(doe, c, q, r, t)
    ensures YearOfEra(doe) == 100 * c + 4 * q + r
  {
    var e := if 24 * c + q + 365 * r + t >= 1460 then 1 else 0;
    assert doe == 1460 * (25 * c + q + e) + (24 * c + q + 365 * r + t - 1460 * e);
    assert doe / 1460 == 25 * c + q + e;
    var last := if doe == 146_096 then 1 else 0;
    assert doe / 36_524 == c + last && doe / 146_096 == last;
    assert doe - doe / 1460 + doe / 36_524 - doe / 146_096 == 365 * (100 * c + 4 * q + r) + (t - e);
  }

  lemma StartOfSplit(c: int, q: int, r: int)
    requires 0 <= c < 4 && 0 <= q < 25 && 0 <= r < 4
    ensures YearStart(100 * c + 4 * q + r) == 36_524 * c + 1461 * q + 365 * r
    ensures LastDayOfYear(100 * c + 4 * q + r) == if r == 3 && (q < 24 || c == 3) then 365 else 364
  {
    var y := 100 * c + 4 * q + r;
    assert y / 4 == 25 * c + q && y / 100 == c;
    if r == 3 {
      assert y + 1 == 4 * (25 * c + q + 1);
      if q == 24 {
        assert y + 1 == 100 * (c + 1);
      } else {
        assert (y + 1) % 100 == 4 * (q + 1);
      }
    }
  }

  /** The divisions give the year a day of an era belongs to. */
  lemma YearOfEraFound(doe: int)
    requires 0 <= doe < DAYS_PER_ERA
    ensures var yoe := YearOfEra(doe);
            0 <= yoe < 400 && 0 <= doe - YearStart(yoe) <= LastDayOfYear(yoe)
  {
    hide YearOfEra, YearStart, LastDayOfYear;
    var c, q, r, t := SplitDay(doe);
    YearOfSplit(doe, c, q, r, t);
    StartOfSplit(c, q, r);
  }

  lemma YearOfEraUnique(yoe: int, t: int)
    requires 0 <= yoe < 400 && 0 <= t <= LastDayOfYear(yoe)
    ensures YearOfEra(YearStart(yoe) + t) == yoe
    ensures 0 <= YearStart(yoe) + t < DAYS_PER_ERA
  {
    hide YearOfEra, YearStart, LastDayOfYear;
    var c, q, r := yoe / 100, yoe % 100 / 4, yoe % 4;
    assert yoe == 100 * c + 4 * q + r;
    StartOfSplit(c, q, r);
    YearOfSplit(YearStart(yoe) + t, c, q, r, t);
  }

  // ----- months of a year

  /** Days of the month `mp` of a March-based year whose February is in `year`. */
  function MarchMonthLength(year: int, mp: int): int {
    MonthLength(year, MonthFromMarch(mp))
  }

  lemma MonthTable(year: int, mp: int)
    requires 0 <= mp < 12
    ensures MonthStart(mp + 1) - MonthStart(mp) == if mp == 11 then 30 else MarchMonthLength(year, mp)
    ensures MonthStart(mp) + MarchMonthLength(year, mp) <= 366
    ensures mp == 11 ==> MonthStart(mp) + MarchMonthLength(year, mp) == (if IsLeap(year) then 366 else 365)
  {
    hide IsLeap;
    assert mp in {0, 1, 2, 3, 4, 5, 6, 7, 8, 9, 10, 11};
  }

  /** The division finds the month. */
  lemma MonthFound(doy: int)
    requires 0 <= doy <= 365
    ensures var mp := (5 * doy + 2) / 153;
            0 <= mp < 12 && MonthStart(mp) <= doy && (mp < 11 ==> doy < MonthStart(mp + 1))
  {
  }

  lemma MonthUnique(mp: int, doy: int)
    requires 0 <= mp < 12 && MonthStart(mp) <= doy <= 365 && (mp < 11 ==> doy < MonthStart(mp + 1))
    ensures (5 * doy + 2) / 153 == mp
  {
  }

  lemma ModByFour(x: int, j: int)
    ensures (x + 4 * j) % 4 == x % 4
  {
  }

  lemma ModByHundred(x: int, j: int)
    ensures (x + 100 * j) % 100 == x % 100
  {
  }

  lemma ModByEra(x: int, k: int)
    ensures (x + 400 * k) % 400 == x % 400
  {
  }

  lemma LeapByEra(yoe: int, era: int)
    ensures IsLeap(yoe + era * 400 + 1) <==> IsLeap(yoe + 1)
  {
    ModByFour(yoe + 1, 100 * era);
    ModByHundred(yoe + 1, 4 * era);
    ModByEra(yoe + 1, era);
    assert yoe + era * 400 + 1 == yoe + 1 + 4 * (100 * era) == yoe + 1 + 100 * (4 * era) == yoe + 1 + 400 * era;
  }

  lemma FromMarchValid(y: int, doy: int)
    requires 0 <= doy <= LastDayOfYear(y)
    ensures var d := FromMarch(y, doy);
            Valid(d) && MarchYear(d) == y && DayOfMarchYear(d) == doy
  {
    hide IsLeap, MonthStart;
    MonthFound(doy);
    var mp := (5 * doy + 2) / 153;
    MonthTable(y + 1, mp);
    MonthTable(y, mp);
  }

  lemma MarchOfValid(d: Date)
    requires Valid(d)
    ensures 0 <= DayOfMarchYear(d) <= LastDayOfYear(MarchYear(d))
    ensures FromMarch(MarchYear(d), DayOfMarchYear(d)) == d
  {
    hide IsLeap, MonthStart;
    var mp := MonthSinceMarch(d.month);
    MonthTable(d.year, mp);
    MonthUnique(mp, DayOfMarchYear(d));
  }

  lemma YearStartStep(yoe: int)
    requires 0 <= yoe < 400
    ensures yoe < 399 ==> YearStart(yoe + 1) == YearStart(yoe) + LastDayOfYear(yoe) + 1
    ensures yoe == 399 ==> DAYS_PER_ERA == YearStart(yoe) + LastDayOfYear(yoe) + 1
    ensures YearStart(0) == 0
  {
    NextMultiple(yoe, 4);
    NextMultiple(yoe, 100);
    assert (yoe + 1) % 400 == 0 <==> yoe == 399;
  }

  lemma NextMultiple(n: int, k: int)
    requires k == 4 || k == 100
    ensures (n + 1) / k == n / k + if (n + 1) % k == 0 then 1 else 0
  {
  }

  lemma SameLastDay(yoe: int, era: int)
    ensures LastDayOfYear(yoe + era * 400) == LastDayOfYear(yoe)
  {
    LeapByEra(yoe, era);
  }

  lemma DaysBeforeInEra(yoe: int, era: int)
    requires 0 <= yoe < 400
    ensures DaysBefore(yoe + era * 400) == era * DAYS_PER_ERA + YearStart(yoe)
  {
    hide YearStart;
    var y := yoe + era * 400;
    assert y / 400 == era && y % 400 == yoe;
  }

  lemma NextYearStart(y: int)
    ensures DaysBefore(y + 1) == DaysBefore(y) + LastDayOfYear(y) + 1
  {
    hide LastDayOfYear, YearStart, DaysBefore;
    var yoe, era := y % 400, y / 400;
    assert y == yoe + era * 400;
    SameLastDay(yoe, era);
    YearStartStep(yoe);
    DaysBeforeInEra(yoe, era);
    if yoe == 399 {
      DaysBeforeInEra(0, era + 1);
    } else {
      DaysBeforeInEra(yoe + 1, era);
    }
  }

  // ----- the theorems

  lemma DayInEra(doe: int, era: int)
    requires 0 <= doe < DAYS_PER_ERA
    ensures (era * DAYS_PER_ERA + doe) / DAYS_PER_ERA == era && (era * DAYS_PER_ERA + doe) % DAYS_PER_ERA == doe
  {
  }

  /** The date of a day of an era, read off and counted back. */
  lemma CivilInEra(doe: int, era: int)
    requires 0 <= doe < DAYS_PER_ERA
    ensures var yoe := YearOfEra(doe);
            var y := yoe + era * 400;
            && Civil(era * DAYS_PER_ERA + doe - MARCH_YEAR_ZERO) == FromMarch(y, doe - YearStart(yoe))
            && 0 <= yoe < 400 && 0 <= doe - YearStart(yoe) <= LastDayOfYear(y)
  {
    YearOfEraFound(doe);
    DayInEra(doe, era);
    LeapByEra(YearOfEra(doe), era);
    hide YearOfEra, YearStart, IsLeap, FromMarch;
  }

  /** Every day number gives a valid date, and counting back gives the number. */
  lemma CivilCounts(days: int)
    ensures Valid(Civil(days)) && DayNumber(Civil(days)) == days
  {
    hide Civil, YearOfEra, YearStart, LastDayOfYear, FromMarch, MarchYear, DayOfMarchYear, DaysBefore, Valid;
    var z := days + MARCH_YEAR_ZERO;
    var era, doe := z / DAYS_PER_ERA, z % DAYS_PER_ERA;
    CivilInEra(doe, era);
    var yoe := YearOfEra(doe);
    FromMarchValid(yoe + era * 400, doe - YearStart(yoe));
    DaysBeforeInEra(yoe, era);
    assert era * DAYS_PER_ERA + doe == z;
  }

  /** Every valid date is the date of its day number. */
  lemma CivilReachesEveryDate(d: Date)
    requires Valid(d)
    ensures Civil(DayNumber(d)) == d
  {
    hide Civil, YearOfEra, YearStart, LastDayOfYear, FromMarch, MarchYear, DayOfMarchYear, DaysBefore, Valid;
    var y, t := MarchYear(d), DayOfMarchYear(d);
    var yoe, era := y % 400, y / 400;
    MarchOfValid(d);
    SameLastDay(yoe, era);
    YearOfEraUnique(yoe, t);
    DaysBeforeInEra(yoe, era);
    CivilInEra(YearStart(yoe) + t, era);
    assert y == yoe + era * 400;
  }

  lemma NextDayCounts(d: Date)
    requires Valid(d)
    ensures Valid(NextDay(d)) && DayNumber(NextDay(d)) == DayNumber(d) + 1
  {
    hide YearStart, MonthStart, IsLeap;
    var mp := MonthSinceMarch(d.month);
    MonthTable(d.year, mp);
    NextYearStart(d.year - 1);
    FirstOfMarch();
  }

  lemma FirstOfMarch()
    ensures MonthStart(0) == 0
  {
  }

  /** Day 0 is 1970-01-01. */
  lemma CivilStart()
    ensures Civil(0) == EPOCH
  {
    assert MARCH_YEAR_ZERO == 4 * DAYS_PER_ERA + 135_080;
    assert YearOfEra(135_080) == 369;
  }

  /** The next day number is the next day of the calendar. */
  lemma CivilSuccessor(days: int)
    ensures Civil(days + 1) == NextDay(Civil(days))
  {
    hide Civil, NextDay, Valid, DayNumber;
    CivilCounts(days);
    NextDayCounts(Civil(days));
    CivilReachesEveryDate(NextDay(Civil(days)));
  }

  /** The arithmetic is the only numbering of valid dates that starts at the
    * epoch and follows the calendar, in both directions.
    */
  lemma CivilIsTheCalendar(f: int -> Date, days: int)
    requires f(0) == EPOCH
    requires forall n :: Valid(f(n)) && f(n + 1) == NextDay(f(n))
    ensures f(days) == Civil(days)
    decreases if days < 0 then -days else days
  {
    hide Civil, NextDay, Valid;
    if days == 0 {
      CivilStart();
    } else if days > 0 {
      CivilIsTheCalendar(f, days - 1);
      CivilSuccessor(days - 1);
      assert f(days - 1 + 1) == NextDay(f(days - 1));
    } else {
      CivilIsTheCalendar(f, days + 1);
      CivilSuccessor(days);
      CivilCounts(days);
      NextDayInjective(f(days), Civil(days));
    }
  }

  lemma NextDayAfter(d: Date)
    requires Valid(d)
    ensures Before(d, NextDay(d))
  {
  }

  lemma BeforeTransitive(a: Date, b: Date, c: Date)
    requires Before(a, b) && Before(b, c)
    ensures Before(a, c)
  {
  }

  /** Later day numbers are later dates; no two share one. */
  lemma {:induction false} CivilOrdered(m: int, n: int)
    requires m < n
    ensures Before(Civil(m), Civil(n))
    decreases n - m
  {
    hide Civil, NextDay, Valid, Before;
    CivilCounts(n - 1);
    CivilSuccessor(n - 1);
    NextDayAfter(Civil(n - 1));
    if m < n - 1 {
      CivilOrdered(m, n - 1);
      BeforeTransitive(Civil(m), Civil(n - 1), Civil(n));
    }
  }
}
