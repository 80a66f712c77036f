/**
 * The parts of the ECMAScript `Date` object the core relies on: `Date.UTC`
 * and the `getUTCFullYear` / `getUTCMonth` / `getUTCDate` getters of the
 * date it builds. Time values are integer milliseconds since 1970-01-01
 * (ECMA-262, section 21.4.1, "Overview of Date Objects and Definitions of
 * Abstract Operations"); the calendar is the proleptic Gregorian one.
 * Months are 0-based here, as they are in JavaScript.
 */
module JsDate {

  /** msPerDay */
  const MsPerDay: int := 86400000

  /** Day(t): the number of the day that contains time value `t`. */
  function Day(t: int): (n: int)
  {
    t / MsPerDay
  }

  /** DaysInYear(y) */
  function DaysInYear(y: int): (n: int)
  {
    if y % 4 != 0 then 365
    else if y % 100 != 0 then 366
    else if y % 400 != 0 then 365
    else 366
  }

  /**
   * DayFromYear(y): the day number of January 1 of year `y`, counted year
   * by year from 1970. DayFromYearIsFormula shows that this is the closed
   * form ECMA-262 gives.
   */
  function DayFromYear(y: int): (n: int)
    decreases if y >= 1970 then y - 1970 else 1970 - y
  {
    if y == 1970 then 0
    else if y > 1970 then DayFromYear(y - 1) + DaysInYear(y - 1)
    else DayFromYear(y + 1) - DaysInYear(y)
  }

  /** ECMA-262's DayFromYear: 365 days a year plus the leap days since 1970. */
  function DayFromYearFormula(y: int): (n: int)
  {
    365 * (y - 1970) + (y - 1969) / 4 - (y - 1901) / 100 + (y - 1601) / 400
  }

  /** Each year adds its own length to the day count. */
  lemma DayFromYearStep(y: int)
    ensures DayFromYear(y + 1) == DayFromYear(y) + DaysInYear(y)
  {
  }

  /** The closed form grows by the year's length from one year to the next. */
  lemma FormulaStep(y: int)
    ensures DayFromYearFormula(y + 1) == DayFromYearFormula(y) + DaysInYear(y)
  {
    FloorStep4(y - 1969);
    FloorStep100(y - 1901);
    FloorStep400(y - 1601);
    LeapRemainders(y);
    var a := if y % 4 == 0 then 1 else 0;
    var b := if y % 100 == 0 then 1 else 0;
    var c := if y % 400 == 0 then 1 else 0;
    assert DayFromYearFormula(y + 1) == DayFromYearFormula(y) + 365 + a - b + c;
  }

  /** The year-by-year count is ECMA-262's closed form. */
  lemma {:induction false} DayFromYearIsFormula(y: int)
    ensures DayFromYear(y) == DayFromYearFormula(y)
    decreases if y >= 1970 then y - 1970 else 1970 - y
  {
    if y > 1970 {
      DayFromYearIsFormula(y - 1);
      FormulaStep(y - 1);
    } else if y < 1970 {
      DayFromYearIsFormula(y + 1);
      FormulaStep(y);
    }
  }

  /** The remainders DayFromYear's three corrections are about. */
  lemma LeapRemainders(y: int)
    ensures (y - 1968) % 4 == y % 4
    ensures (y - 1900) % 100 == y % 100
    ensures (y - 1600) % 400 == y % 400
    ensures y % 100 == 0 ==> y % 4 == 0
    ensures y % 400 == 0 ==> y % 100 == 0
  {
    assert y - 1968 == 4 * (y / 4 - 492) + y % 4;
    assert y - 1900 == 100 * (y / 100 - 19) + y % 100;
    assert y - 1600 == 400 * (y / 400 - 4) + y % 400;
    if y % 100 == 0 {
      assert y == 4 * (25 * (y / 100));
    }
    if y % 400 == 0 {
      assert y == 100 * (4 * (y / 400));
    }
  }

  lemma FloorStep4(x: int)
    ensures (x + 1) / 4 == x / 4 + (if (x + 1) % 4 == 0 then 1 else 0)
  {
  }

  lemma FloorStep100(x: int)
    ensures (x + 1) / 100 == x / 100 + (if (x + 1) % 100 == 0 then 1 else 0)
  {
  }

  lemma FloorStep400(x: int)
    ensures (x + 1) / 400 == x / 400 + (if (x + 1) % 400 == 0 then 1 else 0)
  {
  }

  lemma {:induction false} DayFromYearMonotone(a: int, b: int)
    requires a <= b
    ensures DayFromYear(a) + (b - a) * 365 <= DayFromYear(b)
    decreases b - a
  {
    if a < b {
      DayFromYearMonotone(a, b - 1);
      DayFromYearStep(b - 1);
    }
  }

  /** The leap-day adjustment of the month table. */
  function LeapDay(y: int): (n: int)
  {
    if DaysInYear(y) == 366 then 1 else 0
  }

  /**
   * The day within year `y` on which month `m` (0 = January) starts; for
   * m == 12 the length of the year. This is the table that MonthFromTime
   * and DateFromTime are written with.
   */
  function MonthStart(y: int, m: int): (k: int)
    requires 0 <= m <= 12
    ensures m == 0 ==> k == 0
    ensures m == 12 ==> k == DaysInYear(y)
  {
    var common :=
      if m == 0 then 0 else if m == 1 then 31 else if m == 2 then 59
      else if m == 3 then 90 else if m == 4 then 120 else if m == 5 then 151
      else if m == 6 then 181 else if m == 7 then 212 else if m == 8 then 243
      else if m == 9 then 273 else if m == 10 then 304 else if m == 11 then 334
      else 365;
    common + (if m >= 2 then LeapDay(y) else 0)
  }

  /** The number of days in month `m` (0 = January) of year `y`. */
  function MonthLength(y: int, m: int): (n: int)
    requires 0 <= m < 12
    ensures 28 <= n <= 31
  {
    MonthStart(y, m + 1) - MonthStart(y, m)
  }

  /** MakeDay(year, month, date), for integral arguments. */
  function MakeDay(year: int, month: int, date: int): (n: int)
  {
    var ym := year + month / 12;
    var mn := month % 12;
    DayFromYear(ym) + MonthStart(ym, mn) + date - 1
  }

  /**
   * `Date.UTC(year, month, date)`: two-digit years 0 to 99 mean 1900 to
   * 1999; month and date overflow into the following months and years.
   */
  function DateUTC(year: int, month: int, date: int): (t: int)
    ensures t % MsPerDay == 0
  {
    var yr := if 0 <= year <= 99 then 1900 + year else year;
    MakeDay(yr, month, date) * MsPerDay
  }

  // ---------------------------------------------------------------------
  // From a day number back to year, month and date

  /**
   * The largest year `r` whose first day is at or before day `n`, looking
   * no lower than `y`.
   */
  function YearSearch(n: int, y: int): (r: int)
    requires DayFromYear(y) <= n
    ensures y <= r
    ensures DayFromYear(r) <= n < DayFromYear(r + 1)
    ensures n - DayFromYear(r) < DaysInYear(r)
    decreases n - DayFromYear(y)
  {
    DayFromYearStep(y);
    if DayFromYear(y + 1) <= n then YearSearch(n, y + 1) else y
  }

  /** The first day the getters are modelled for: 0000-01-01. */
  const FirstDay: int := DayFromYear(0)

  /** YearFromTime, on the day number. */
  function YearFromDay(n: int): (r: int)
    requires n >= FirstDay
    ensures r >= 0
    ensures DayFromYear(r) <= n < DayFromYear(r + 1)
    ensures n - DayFromYear(r) < DaysInYear(r)
  {
    YearSearch(n, 0)
  }

  /** The month (0 = January) that contains day `k` of year `y`. */
  function MonthSearch(y: int, k: int, m: int): (r: int)
    requires 0 <= m < 12
    requires MonthStart(y, m) <= k < DaysInYear(y)
    ensures m <= r < 12
    ensures MonthStart(y, r) <= k < MonthStart(y, r + 1)
    decreases 12 - m
  {
    if m < 11 && MonthStart(y, m + 1) <= k then MonthSearch(y, k, m + 1) else m
  }

  /** What the three UTC getters of a `Date` report. */
  datatype UtcFields = UtcFields(year: int, month: int, date: int)

  /** A year, 0-based month and date that name an existing day. */
  predicate IsCalendarDay(f: UtcFields)
  {
    0 <= f.month < 12 && 1 <= f.date <= MonthLength(f.year, f.month)
  }

  /** The day number of an existing day. */
  function DayNumber(f: UtcFields): (n: int)
    requires IsCalendarDay(f)
  {
    DayFromYear(f.year) + MonthStart(f.year, f.month) + f.date - 1
  }

  /** YearFromTime, MonthFromTime and DateFromTime of day `n`. */
  function FieldsOfDay(n: int): (f: UtcFields)
    requires n >= FirstDay
    ensures f.year >= 0 && IsCalendarDay(f)
    ensures DayNumber(f) == n
  {
    var y := YearFromDay(n);
    var k := n - DayFromYear(y);
    var m := MonthSearch(y, k, 0);
    UtcFields(y, m, k - MonthStart(y, m) + 1)
  }

  /**
   * `new Date(t)` followed by getUTCFullYear, getUTCMonth and getUTCDate,
   * for times from 0000-01-01 on. Earlier times, which no `YYYY-MM-DD`
   * string produces, are not modelled: they give the fields of no day.
   */
  function FieldsOfTime(t: int): (f: UtcFields)
    ensures Day(t) >= FirstDay ==> f == FieldsOfDay(Day(t))
    ensures Day(t) < FirstDay ==> !IsCalendarDay(f)
  {
    if Day(t) >= FirstDay then FieldsOfDay(Day(t)) else UtcFields(-1, -1, 0)
  }

  // ---------------------------------------------------------------------
  // Properties

  /** A day lies after the first day of its year and before the next year. */
  lemma DayNumberWithinYear(f: UtcFields)
    requires IsCalendarDay(f)
    ensures DayFromYear(f.year) <= DayNumber(f) < DayFromYear(f.year + 1)
  {
    DayFromYearStep(f.year);
    assert MonthStart(f.year, f.month + 1) <= MonthStart(f.year, 12);
  }

  /** Only one year contains a given day. */
  lemma YearIsUnique(n: int, y: int)
    requires y >= 0 && DayFromYear(y) <= n < DayFromYear(y + 1)
    ensures n >= FirstDay && YearFromDay(n) == y
  {
    DayFromYearMonotone(0, y);
    var r := YearFromDay(n);
    if r < y {
      DayFromYearMonotone(r + 1, y);
    } else if r > y {
      DayFromYearMonotone(y + 1, r);
    }
  }

  /** Only one month of a year contains a given day of that year. */
  lemma MonthIsUnique(y: int, k: int, m: int)
    requires 0 <= m < 12 && MonthStart(y, m) <= k < MonthStart(y, m + 1)
    ensures MonthSearch(y, k, 0) == m
  {
    var r := MonthSearch(y, k, 0);
    if r < m {
      MonthStartMonotone(y, r + 1, m);
    } else if r > m {
      MonthStartMonotone(y, m + 1, r);
    }
  }

  /** Later months start later in the year. */
  lemma {:induction false} MonthStartMonotone(y: int, a: int, b: int)
    requires 0 <= a <= b <= 12
    ensures MonthStart(y, a) + 28 * (b - a) <= MonthStart(y, b)
    decreases b - a
  {
    if a < b {
      MonthStartMonotone(y, a, b - 1);
      assert MonthLength(y, b - 1) >= 28;
    }
  }

  /** The getters give back the year, month and date a calendar day was built from. */
  lemma FieldsOfDayNumber(f: UtcFields)
    requires f.year >= 0 && IsCalendarDay(f)
    ensures DayNumber(f) >= FirstDay
    ensures FieldsOfDay(DayNumber(f)) == f
  {
    DayNumberLocated(f);
  }

  /** The year and month searches of FieldsOfDay find the year and month a day was built from. */
  lemma DayNumberLocated(f: UtcFields)
    requires f.year >= 0 && IsCalendarDay(f)
    ensures DayNumber(f) >= FirstDay && YearFromDay(DayNumber(f)) == f.year
    ensures MonthSearch(f.year, DayNumber(f) - DayFromYear(f.year), 0) == f.month
  {
    var n := DayNumber(f);
    DayNumberWithinYear(f);
    YearIsUnique(n, f.year);
    var k := n - DayFromYear(f.year);
    assert MonthStart(f.year, f.month) <= k < MonthStart(f.year, f.month + 1);
    MonthIsUnique(f.year, k, f.month);
  }

  /** Two calendar days are ordered by their day numbers as (year, month, date) is ordered. */
  lemma DayNumberOrder(f: UtcFields, g: UtcFields)
    requires IsCalendarDay(f) && IsCalendarDay(g)
    ensures DayNumber(f) < DayNumber(g) <==>
      f.year < g.year ||
      (f.year == g.year && (f.month < g.month || (f.month == g.month && f.date < g.date)))
    ensures DayNumber(f) == DayNumber(g) <==> f == g
  {
    if f.year < g.year {
      EarlierYearEarlierDay(f, g);
    } else if g.year < f.year {
      EarlierYearEarlierDay(g, f);
    } else if f.month < g.month {
      EarlierMonthEarlierDay(f, g);
    } else if g.month < f.month {
      EarlierMonthEarlierDay(g, f);
    }
  }

  /** A day of an earlier year comes before any day of a later year. */
  lemma EarlierYearEarlierDay(f: UtcFields, g: UtcFields)
    requires IsCalendarDay(f) && IsCalendarDay(g) && f.year < g.year
    ensures DayNumber(f) < DayNumber(g)
  {
    DayNumberWithinYear(f);
    DayNumberWithinYear(g);
    DayFromYearMonotone(f.year + 1, g.year);
  }

  /** Within a year, a day of an earlier month comes before any day of a later month. */
  lemma EarlierMonthEarlierDay(f: UtcFields, g: UtcFields)
    requires IsCalendarDay(f) && IsCalendarDay(g) && f.year == g.year && f.month < g.month
    ensures DayNumber(f) < DayNumber(g)
  {
    MonthStartMonotone(f.year, f.month + 1, g.month);
  }

  /**
   * For the arguments a `YYYY-MM-DD` string can produce (year 0 to 9999,
   * month index from -1, date from 0), `Date.UTC` lands on a whole day
   * after 0000-01-01, so the getters are defined on it.
   */
  lemma DateUTCDay(year: int, month: int, date: int)
    requires year >= 0 && month >= -1 && date >= 0
    ensures Day(DateUTC(year, month, date)) >= FirstDay
    ensures Day(DateUTC(year, month, date)) ==
      MakeDay(if 0 <= year <= 99 then 1900 + year else year, month, date)
  {
    var yr := if 0 <= year <= 99 then 1900 + year else year;
    var ym := yr + month / 12;
    assert ym >= 99;
    DayFromYearMonotone(0, 98);
    DayFromYearMonotone(99, ym);
    DayFromYearStep(98);
  }

  /**
   * `Date.UTC` reads years 0 to 99 as 1900 to 1999, so with the month and
   * date a `YYYY-MM-DD` string can carry, the getters report 1898 or later.
   */
  lemma TwoDigitYearsMoveOn(year: int, month: int, date: int)
    requires 0 <= year <= 99 && month >= -1 && date >= 0
    ensures FieldsOfTime(DateUTC(year, month, date)).year >= 1898
  {
    DateUTCDay(year, month, date);
    var ym := 1900 + year + month / 12;
    DayFromYearMonotone(1899, ym);
    DayFromYearStep(1898);
    YearAtLeast(Day(DateUTC(year, month, date)), 1898);
  }

  /** A later year starts on a later day: the bound used to reject two-digit years. */
  lemma YearAtLeast(n: int, y: int)
    requires y >= 0 && n >= DayFromYear(y)
    ensures n >= FirstDay && YearFromDay(n) >= y
  {
    DayFromYearMonotone(0, y);
    var r := YearFromDay(n);
    if r < y {
      DayFromYearMonotone(r + 1, y);
    }
  }
}
