/**
 * The `full-date` production of RFC 3339 (section 5.6), with the month
 * lengths of section 5.7 and the leap-year rule of Appendix C. This is the
 * reference definition the date check is measured against.
 */
module Rfc3339 {

  import opened JsString

  /** date-fullyear "-" date-month "-" date-mday, each part of fixed width. */
  predicate IsFullDateSyntax(s: string)
  {
    |s| == 10 && s[4] == '-' && s[7] == '-' &&
    AllDigits(s[..4]) && AllDigits(s[5..7]) && AllDigits(s[8..])
  }

  function FullYear(s: string): (y: nat)
    requires IsFullDateSyntax(s)
  {
    DecimalValue(s[..4])
  }

  function Month(s: string): (m: nat)
    requires IsFullDateSyntax(s)
  {
    DecimalValue(s[5..7])
  }

  function MDay(s: string): (d: nat)
    requires IsFullDateSyntax(s)
  {
    DecimalValue(s[8..])
  }

  /** Appendix C: divisible by 4, and not by 100 unless also by 400. */
  predicate IsLeapYear(year: int)
  {
    year % 4 == 0 && (year % 100 != 0 || year % 400 == 0)
  }

  /** Section 5.7: the maximum day number of month `month` (1 = January). */
  function DaysInMonth(year: int, month: int): (n: int)
    requires 1 <= month <= 12
  {
    if month == 2 then (if IsLeapYear(year) then 29 else 28)
    else if month == 4 || month == 6 || month == 9 || month == 11 then 30
    else 31
  }

  /** A `full-date` that names an existing day. */
  predicate IsFullDate(s: string)
  {
    IsFullDateSyntax(s) &&
    1 <= Month(s) <= 12 &&
    1 <= MDay(s) <= DaysInMonth(FullYear(s), Month(s))
  }
}
