/**
 * `parseISODate` and `isValidDate` of the workload editor
 * (src/components/LoadEditor.js): a `YYYY-MM-DD` pattern match followed by a
 * `Date.UTC` round trip that rejects dates which do not exist.
 */
module IsoDate {

  import opened Wrappers
  import opened JsString
  import opened JsDate
  import Rfc3339

  /** What a successful parse returns: the three numbers and the UTC time value. */
  datatype ParsedDate = ParsedDate(y: int, mo: int, da: int, utc: int)

  /** The groups captured by `/^(\d{4})-(\d{2})-(\d{2})$/`. */
  datatype DateGroups = DateGroups(year: string, month: string, date: string)

  /** Position `i` of the pattern: a dash at 4 and 7, a digit elsewhere. */
  predicate PatternAt(d: string, i: int)
    requires 0 <= i < |d|
  {
    if i == 4 || i == 7 then d[i] == '-' else IsAsciiDigit(d[i])
  }

  /** `/^(\d{4})-(\d{2})-(\d{2})$/.exec(d)`. */
  function ExecDatePattern(d: string): (m: Option<DateGroups>)
    ensures m.Some? ==>
      |m.value.year| == 4 && |m.value.month| == 2 && |m.value.date| == 2 &&
      AllDigits(m.value.year) && AllDigits(m.value.month) && AllDigits(m.value.date)
  {
    if |d| == 10 && forall i :: 0 <= i < 10 ==> PatternAt(d, i) then
      PatternGroupsAreDigits(d);
      Some(DateGroups(d[..4], d[5..7], d[8..]))
    else
      None
  }

  lemma PatternGroupsAreDigits(d: string)
    requires |d| == 10 && forall i :: 0 <= i < 10 ==> PatternAt(d, i)
    ensures AllDigits(d[..4]) && AllDigits(d[5..7]) && AllDigits(d[8..])
  {
    forall i | 0 <= i < 4 ensures IsAsciiDigit(d[..4][i]) {
      assert PatternAt(d, i);
    }
    forall i | 0 <= i < 2 ensures IsAsciiDigit(d[5..7][i]) && IsAsciiDigit(d[8..][i]) {
      assert PatternAt(d, 5 + i) && PatternAt(d, 8 + i);
    }
  }

  /**
   * parseISODate(d): `None` stands for a value that is not a string. A
   * string parses when it has the pattern's shape and `Date.UTC` of its
   * three numbers reads back as the same year, month and date.
   */
  function ParseISODate(d: Option<string>): (p: Option<ParsedDate>)
  {
    if d.None? then None
    else match ExecDatePattern(d.value)
      case None => None
      case Some(g) => ReadBack(DecimalValue(g.year), DecimalValue(g.month), DecimalValue(g.date))
  }

  /** The second half of parseISODate: `Date.UTC` of the numbers must read back as the same date. */
  function ReadBack(y: nat, mo: nat, da: nat): (p: Option<ParsedDate>)
  {
    var utc := DateUTC(y, mo - 1, da);
    var dt := FieldsOfTime(utc);
    if dt.year != y || dt.month != mo - 1 || dt.date != da then None
    else Some(ParsedDate(y, mo, da, utc))
  }

  /** isValidDate(d) */
  predicate IsValidDate(d: Option<string>)
  {
    ParseISODate(d).Some?
  }

  /** The day number (days since 1970-01-01) of a valid date string. */
  function DayOf(d: string): (n: int)
    requires IsValidDate(Some(d))
  {
    Day(ParseISODate(Some(d)).value.utc)
  }

  // ---------------------------------------------------------------------
  // The date check accepts exactly the RFC 3339 full-dates from year 100 on

  /** The pattern is the `full-date` syntax of RFC 3339. */
  lemma PatternIsFullDateSyntax(d: string)
    ensures ExecDatePattern(d).Some? <==> Rfc3339.IsFullDateSyntax(d)
    ensures ExecDatePattern(d).Some? ==>
      ExecDatePattern(d).value == DateGroups(d[..4], d[5..7], d[8..])
  {
    if |d| == 10 && forall i :: 0 <= i < 10 ==> PatternAt(d, i) {
      PatternGroupsAreDigits(d);
      assert PatternAt(d, 4) && PatternAt(d, 7);
    }
    if Rfc3339.IsFullDateSyntax(d) {
      forall i | 0 <= i < 10 ensures PatternAt(d, i) {
        if i < 4 {
          assert d[i] == d[..4][i];
        } else if 4 < i < 7 {
          assert d[i] == d[5..7][i - 5];
        } else if 7 < i {
          assert d[i] == d[8..][i - 8];
        }
      }
    }
  }

  /** JavaScript's DaysInYear and RFC 3339's leap-year rule agree, month by month. */
  lemma MonthLengthsAgree(year: int, month: int)
    requires 1 <= month <= 12
    ensures MonthLength(year, month - 1) == Rfc3339.DaysInMonth(year, month)
  {
    assert DaysInYear(year) == 366 <==> Rfc3339.IsLeapYear(year);
  }

  /** The round trip parseISODate performs, for a string of the right shape. */
  function RoundTrip(d: string): (f: UtcFields)
    requires Rfc3339.IsFullDateSyntax(d)
  {
    var mo: int := Rfc3339.Month(d);
    FieldsOfTime(DateUTC(Rfc3339.FullYear(d), mo - 1, Rfc3339.MDay(d)))
  }

  /** The fields a string of the right shape spells out, month 0-based. */
  function Spelled(d: string): (f: UtcFields)
    requires Rfc3339.IsFullDateSyntax(d)
  {
    UtcFields(Rfc3339.FullYear(d), Rfc3339.Month(d) - 1, Rfc3339.MDay(d))
  }

  lemma ParseISODateUnfolded(d: string)
    ensures ParseISODate(Some(d)) ==
      if !Rfc3339.IsFullDateSyntax(d) || RoundTrip(d) != Spelled(d) then None
      else Some(ParsedDate(Rfc3339.FullYear(d), Rfc3339.Month(d), Rfc3339.MDay(d),
                           DateUTC(Rfc3339.FullYear(d), Rfc3339.Month(d) - 1, Rfc3339.MDay(d))))
  {
    PatternIsFullDateSyntax(d);
    if Rfc3339.IsFullDateSyntax(d) {
      assert ParseISODate(Some(d)) == ReadBack(Rfc3339.FullYear(d), Rfc3339.Month(d), Rfc3339.MDay(d));
    }
  }

  /** An existing day from year 100 on survives the round trip. */
  lemma RoundTripOfCalendarDay(d: string)
    requires Rfc3339.IsFullDate(d) && Rfc3339.FullYear(d) >= 100
    ensures IsCalendarDay(Spelled(d))
    ensures RoundTrip(d) == Spelled(d)
    ensures Day(DateUTC(Rfc3339.FullYear(d), Rfc3339.Month(d) - 1, Rfc3339.MDay(d))) ==
      DayNumber(Spelled(d))
  {
    var f := Spelled(d);
    MonthLengthsAgree(f.year, f.month + 1);
    assert IsCalendarDay(f);
    DateUTCDay(f.year, f.month, f.date);
    assert f.month / 12 == 0 && f.month % 12 == f.month;
    assert MakeDay(f.year, f.month, f.date) == DayNumber(f);
    FieldsOfDayNumber(f);
  }

  /** Whatever survives the round trip is an existing day. */
  lemma RoundTripOnlyCalendarDays(d: string)
    requires Rfc3339.IsFullDateSyntax(d) && RoundTrip(d) == Spelled(d)
    ensures Rfc3339.IsFullDate(d)
  {
    var f := Spelled(d);
    assert IsCalendarDay(f);
    MonthLengthsAgree(f.year, f.month + 1);
  }

  /** Years 0 to 99 never survive: `Date.UTC` moves them to 1900 to 1999. */
  lemma RoundTripRejectsTwoDigitYears(d: string)
    requires Rfc3339.IsFullDateSyntax(d) && Rfc3339.FullYear(d) < 100
    ensures RoundTrip(d).year != Rfc3339.FullYear(d)
  {
    var y: int, mo: int, da: int := Rfc3339.FullYear(d), Rfc3339.Month(d), Rfc3339.MDay(d);
    TwoDigitYearsMoveOn(y, mo - 1, da);
  }

  /**
   * parseISODate accepts a string exactly when it is an RFC 3339 full-date
   * of year 100 or later, and then returns its year, month, date and the
   * time value of its midnight UTC. Years 0 to 99 fail the round trip
   * because `Date.UTC` reads them as 1900 to 1999.
   */
  lemma ParseISODateAcceptsFullDates(d: string)
    ensures IsValidDate(Some(d)) <==>
      Rfc3339.IsFullDate(d) && Rfc3339.FullYear(d) >= 100
    ensures IsValidDate(Some(d)) ==>
      IsCalendarDay(Spelled(d)) &&
      ParseISODate(Some(d)).value ==
        ParsedDate(Rfc3339.FullYear(d), Rfc3339.Month(d), Rfc3339.MDay(d),
                   DayNumber(Spelled(d)) * MsPerDay)
  {
    ParseISODateUnfolded(d);
    if Rfc3339.IsFullDateSyntax(d) {
      if Rfc3339.FullYear(d) < 100 {
        RoundTripRejectsTwoDigitYears(d);
      } else if Rfc3339.IsFullDate(d) {
        RoundTripOfCalendarDay(d);
      } else if RoundTrip(d) == Spelled(d) {
        RoundTripOnlyCalendarDays(d);
      }
    }
  }

  // ---------------------------------------------------------------------
  // String order is date order

  /** Comparing two full-date strings compares year, then month, then day. */
  lemma FullDateStringOrder(a: string, b: string)
    requires Rfc3339.IsFullDateSyntax(a) && Rfc3339.IsFullDateSyntax(b)
    ensures Less(a, b) <==>
      Rfc3339.FullYear(a) < Rfc3339.FullYear(b) ||
      (Rfc3339.FullYear(a) == Rfc3339.FullYear(b) &&
        (Rfc3339.Month(a) < Rfc3339.Month(b) ||
          (Rfc3339.Month(a) == Rfc3339.Month(b) && Rfc3339.MDay(a) < Rfc3339.MDay(b))))
    ensures a == b <==>
      Rfc3339.FullYear(a) == Rfc3339.FullYear(b) && Rfc3339.Month(a) == Rfc3339.Month(b) &&
      Rfc3339.MDay(a) == Rfc3339.MDay(b)
  {
    DigitStringOrder(a[..4], b[..4]);
    DigitStringOrder(a[5..7], b[5..7]);
    DigitStringOrder(a[8..], b[8..]);
    assert a == a[..4] + a[4..] && b == b[..4] + b[4..];
    LessAppend(a[..4], a[4..], b[..4], b[4..]);
    assert a[4..] == [a[4]] + a[5..] && b[4..] == [b[4]] + b[5..];
    LessAppend([a[4]], a[5..], [b[4]], b[5..]);
    LessIrreflexive([a[4]]);
    assert a[5..] == a[5..7] + a[7..] && b[5..] == b[5..7] + b[7..];
    LessAppend(a[5..7], a[7..], b[5..7], b[7..]);
    assert a[7..] == [a[7]] + a[8..] && b[7..] == [b[7]] + b[8..];
    LessAppend([a[7]], a[8..], [b[7]], b[8..]);
    LessIrreflexive([a[7]]);
    if a[..4] == b[..4] && a[5..7] == b[5..7] && a[8..] == b[8..] {
      assert a == a[..4] + [a[4]] + a[5..7] + [a[7]] + a[8..];
      assert b == b[..4] + [b[4]] + b[5..7] + [b[7]] + b[8..];
    }
  }

  /**
   * For two valid dates, JavaScript's string comparison agrees with the
   * order of the days they name, and equal strings are equal days. This is
   * what makes the code's `s < taskStart`-style comparisons sound.
   */
  lemma StringOrderIsDayOrder(a: string, b: string)
    requires IsValidDate(Some(a)) && IsValidDate(Some(b))
    ensures Less(a, b) <==> DayOf(a) < DayOf(b)
    ensures a == b <==> DayOf(a) == DayOf(b)
  {
    ParseISODateAcceptsFullDates(a);
    ParseISODateAcceptsFullDates(b);
    FullDateStringOrder(a, b);
    DayNumberOrder(Spelled(a), Spelled(b));
  }

  /** The parsed time value is a midnight, UTC. */
  lemma UtcIsMidnight(d: string)
    requires IsValidDate(Some(d))
    ensures ParseISODate(Some(d)).value.utc % MsPerDay == 0
  {
    PatternIsFullDateSyntax(d);
  }

  /** The time value of a valid date is a whole number of days. */
  lemma UtcIsWholeDays(d: string)
    requires IsValidDate(Some(d))
    ensures ParseISODate(Some(d)).value.utc == DayOf(d) * MsPerDay
  {
    ParseISODateAcceptsFullDates(d);
  }

  /** `a <= b` on valid dates means "not later". */
  lemma StringLessEqIsDayOrder(a: string, b: string)
    requires IsValidDate(Some(a)) && IsValidDate(Some(b))
    ensures LessEq(a, b) <==> DayOf(a) <= DayOf(b)
  {
    StringOrderIsDayOrder(b, a);
  }
}
