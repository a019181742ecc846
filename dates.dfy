/**
 * Calendar dates as the expense tracker compares and groups them, and the
 * monthly period key that `to_period('M')` assigns to a date.
 */
module Dates {

  /** A calendar day. Time of day is not modelled. */
  datatype Date = Date(year: int, month: int, day: int)

  predicate IsLeapYear(y: int) {
    y % 4 == 0 && (y % 100 != 0 || y % 400 == 0)
  }

  function DaysInMonth(y: int, m: int): (n: int)
    requires 1 <= m <= 12
    ensures 28 <= n <= 31
    ensures m == 2 ==> (n == 29 <==> IsLeapYear(y))
  {
    if m == 2 then (if IsLeapYear(y) then 29 else 28)
    else if m == 4 || m == 6 || m == 9 || m == 11 then 30
    else 31
  }

  /** A day that exists in the proleptic Gregorian calendar. */
  predicate ValidDate(d: Date) {
    1 <= d.month <= 12 && 1 <= d.day <= DaysInMonth(d.year, d.month)
  }

  /** Chronological order: `a` falls on or before `b`. */
  predicate DateLe(a: Date, b: Date) {
    a.year < b.year ||
    (a.year == b.year && (a.month < b.month || (a.month == b.month && a.day <= b.day)))
  }

  /**
   * The ordinal of the monthly period containing `d`: the number of months
   * since January 1970, which is how a monthly period is keyed and ordered.
   */
  function MonthOf(d: Date): (p: int)
    ensures 1 <= d.month <= 12 ==> p / 12 == d.year - 1970 && p % 12 == d.month - 1
  {
    var p := (d.year - 1970) * 12 + (d.month - 1);
    if 1 <= d.month <= 12 then LemmaDivModUnique(p, d.year - 1970, d.month - 1); p else p
  }

  /** The (year, month) a monthly period ordinal stands for, as it is displayed. */
  function MonthYear(p: int): (ym: (int, int))
    ensures 1 <= ym.1 <= 12
    ensures MonthOf(Date(ym.0, ym.1, 1)) == p
  {
    (1970 + p / 12, p % 12 + 1)
  }

  /** Decoding the period of a date gives back the date's year and month. */
  lemma MonthYearOfMonth(d: Date)
    requires 1 <= d.month <= 12
    ensures MonthYear(MonthOf(d)) == (d.year, d.month)
  {
    var p := MonthOf(d);
    assert p == (d.year - 1970) * 12 + (d.month - 1);
    assert p / 12 == d.year - 1970 && p % 12 == d.month - 1 by {
      LemmaDivModUnique(p, d.year - 1970, d.month - 1);
    }
  }

  /** Two dates share a monthly period exactly when they share year and month. */
  lemma SameMonthIff(a: Date, b: Date)
    requires 1 <= a.month <= 12 && 1 <= b.month <= 12
    ensures MonthOf(a) == MonthOf(b) <==> (a.year == b.year && a.month == b.month)
  {
    if MonthOf(a) == MonthOf(b) {
      MonthYearOfMonth(a);
      MonthYearOfMonth(b);
    }
  }

  /** Period ordinals follow chronological order. */
  lemma MonthOfMonotone(a: Date, b: Date)
    requires 1 <= a.month <= 12 && 1 <= b.month <= 12
    requires DateLe(a, b)
    ensures MonthOf(a) <= MonthOf(b)
  {
    if a.year < b.year {
      assert (a.year - 1970) * 12 + 12 <= (b.year - 1970) * 12;
    }
  }

  lemma LemmaDivModUnique(p: int, q: int, r: int)
    requires 0 <= r < 12 && p == q * 12 + r
    ensures p / 12 == q && p % 12 == r
  {
  }
}
