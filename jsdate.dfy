/**
 * The part of JavaScript's `Date` that the calendar panel relies on, at the
 * granularity of whole days: the local-time constructor `new Date(y, m, d)`
 * and the accessors `getFullYear`, `getMonth`, `getDate` and `getDay`.
 *
 * A date is kept by its calendar fields (what the accessors return); its
 * position on the time line is `DayNumber`, the number of days since
 * 1 January 1970, as in the ECMAScript definition of `Day(t)`.
 */
module JsDate {

  /** A proleptic Gregorian calendar date; `month` is 0-based as in JavaScript. */
  datatype CivilDate = CivilDate(year: int, month: int, day: int)

  predicate IsLeapYear(y: int) {
    y % 4 == 0 && (y % 100 != 0 || y % 400 == 0)
  }

  function YearLength(y: int): int {
    if IsLeapYear(y) then 366 else 365
  }

  /** The number of days in month `m` (0..11) of year `y`. */
  function MonthLength(y: int, m: int): (n: int)
    requires 0 <= m < 12
    ensures 28 <= n <= 31
    ensures m == 1 ==> (n == 29 <==> IsLeapYear(y))
  {
    if m == 1 then (if IsLeapYear(y) then 29 else 28)
    else if m == 3 || m == 5 || m == 8 || m == 10 then 30
    else 31
  }

  predicate ValidDate(c: CivilDate) {
    0 <= c.month < 12 && 1 <= c.day <= MonthLength(c.year, c.month)
  }

  /** Days of year `y` that come before month `m`; `m == 12` gives the whole year. */
  function DaysBeforeMonth(y: int, m: int): int
    requires 0 <= m <= 12
  {
    var common :=
      if m == 0 then 0 else if m == 1 then 31 else if m == 2 then 59
      else if m == 3 then 90 else if m == 4 then 120 else if m == 5 then 151
      else if m == 6 then 181 else if m == 7 then 212 else if m == 8 then 243
      else if m == 9 then 273 else if m == 10 then 304 else if m == 11 then 334
      else 365;
    if m >= 2 && IsLeapYear(y) then common + 1 else common
  }

  lemma DaysBeforeMonthStep(y: int, m: int)
    requires 0 <= m < 12
    ensures DaysBeforeMonth(y, m + 1) == DaysBeforeMonth(y, m) + MonthLength(y, m)
    ensures DaysBeforeMonth(y, 12) == YearLength(y)
  {
  }

  /** The number of days in the `n` years that start with year `y`. */
  function YearsLength(y: int, n: nat): int
    decreases n
  {
    if n == 0 then 0 else YearLength(y) + YearsLength(y + 1, n - 1)
  }

  /** The day number of 1 January of year `y`: whole years counted from 1970. */
  function DayFromYear(y: int): int {
    if y >= 1970 then YearsLength(1970, y - 1970) else -YearsLength(y, 1970 - y)
  }

  lemma {:induction false} YearsLengthSplit(y: int, n: nat)
    ensures YearsLength(y, n + 1) == YearsLength(y, n) + YearLength(y + n)
    decreases n
  {
    if n > 0 {
      YearsLengthSplit(y + 1, n - 1);
    }
  }

  /** Consecutive years are one year length apart on the time line. */
  lemma YearStep(y: int)
    ensures DayFromYear(y + 1) == DayFromYear(y) + YearLength(y)
  {
    if y >= 1970 {
      YearsLengthSplit(1970, y - 1970);
    }
  }

  /** ECMAScript's closed form of `DayFromYear`, with floor division. */
  function ClosedDayFromYear(y: int): int {
    365 * (y - 1970) + (y - 1969) / 4 - (y - 1901) / 100 + (y - 1601) / 400
  }

  /** Floor division by a positive `k` goes up by one exactly at multiples of `k`. */
  lemma FloorStep(a: int, k: int)
    requires k > 0
    ensures (a + 1) / k == a / k + (if (a + 1) % k == 0 then 1 else 0)
  {
    var q, r := a / k, a % k;
    assert a == k * q + r && 0 <= r < k;
    if r == k - 1 {
      DivUnique(a + 1, k, q + 1, 0);
    } else {
      DivUnique(a + 1, k, q, r + 1);
    }
  }

  lemma DivUnique(n: int, k: int, q: int, r: int)
    requires k > 0 && 0 <= r < k && n == k * q + r
    ensures n / k == q && n % k == r
  {
    var q', r' := n / k, n % k;
    assert n == k * q' + r' && 0 <= r' < k;
    assert k * (q - q') == r' - r;
    if q' != q {
      MulAtLeast(k, q - q');
      assert false;
    }
  }

  lemma MulAtLeast(k: int, d: int)
    requires k > 0 && d != 0
    ensures k * d >= k || k * d <= -k
  {
  }

  /** The closed form also steps by one year length. */
  lemma ClosedYearStep(y: int)
    ensures ClosedDayFromYear(y + 1) == ClosedDayFromYear(y) + YearLength(y)
  {
    FloorStep(y - 1969, 4);
    FloorStep(y - 1901, 100);
    FloorStep(y - 1601, 400);
    assert (y - 1968) % 4 == 0 <==> y % 4 == 0;
    assert (y - 1900) % 100 == 0 <==> y % 100 == 0;
    assert (y - 1600) % 400 == 0 <==> y % 400 == 0;
  }

  /** Counting whole years agrees with ECMAScript's closed form for every year. */
  lemma {:induction false} DayFromYearClosedForm(y: int)
    ensures DayFromYear(y) == ClosedDayFromYear(y)
    decreases if y < 1970 then 1970 - y else y - 1970
  {
    if y > 1970 {
      DayFromYearClosedForm(y - 1);
      ClosedYearStep(y - 1);
      YearStep(y - 1);
    } else if y < 1970 {
      DayFromYearClosedForm(y + 1);
      ClosedYearStep(y);
      YearStep(y);
    }
  }

  /** `DayFromYear` is strictly increasing. */
  lemma {:induction false} DayFromYearMonotone(a: int, b: int)
    requires a < b
    ensures DayFromYear(a) + YearLength(a) <= DayFromYear(b)
    decreases b - a
  {
    YearStep(a);
    if a + 1 < b {
      DayFromYearMonotone(a + 1, b);
    }
  }

  /** The day number of a date: `Day(t)` of its local midnight. */
  function DayNumber(c: CivilDate): int
    requires 0 <= c.month < 12
  {
    DayFromYear(c.year) + DaysBeforeMonth(c.year, c.month) + c.day - 1
  }

  /** Different valid dates are different days: the accessors are a function of the day number. */
  lemma DayNumberInjective(a: CivilDate, b: CivilDate)
    requires ValidDate(a) && ValidDate(b)
    requires DayNumber(a) == DayNumber(b)
    ensures a == b
  {
    DaysBeforeMonthStep(a.year, a.month);
    DaysBeforeMonthStep(b.year, b.month);
    DaysBeforeMonthBound(a.year, a.month);
    DaysBeforeMonthBound(b.year, b.month);
    if a.year < b.year {
      DayFromYearMonotone(a.year, b.year);
      assert false;
    } else if b.year < a.year {
      DayFromYearMonotone(b.year, a.year);
      assert false;
    }
    if a.month < b.month {
      DaysBeforeMonthIncreasing(a.year, a.month + 1, b.month);
      assert false;
    } else if b.month < a.month {
      DaysBeforeMonthIncreasing(b.year, b.month + 1, a.month);
      assert false;
    }
  }

  lemma DaysBeforeMonthBound(y: int, m: int)
    requires 0 <= m < 12
    ensures DaysBeforeMonth(y, m) + MonthLength(y, m) <= YearLength(y)
  {
  }

  lemma DaysBeforeMonthIncreasing(y: int, i: int, j: int)
    requires 0 <= i <= j <= 12
    ensures DaysBeforeMonth(y, i) <= DaysBeforeMonth(y, j)
  {
  }

  /**
   * JavaScript's day overflow: day `d` of month `m` (0..11) of year `y`, where
   * `d` may lie before the 1st (0 is the last day of the previous month) or
   * after the last day, rolling into neighbouring months and years.
   */
  function Normalize(y: int, m: int, d: int): (r: CivilDate)
    requires 0 <= m < 12
    ensures ValidDate(r)
  {
    if d < 1 then RollBack(y, m, d) else RollForward(y, m, d)
  }

  /** Day overflow past the end of the month, one month at a time. */
  function RollForward(y: int, m: int, d: int): (r: CivilDate)
    requires 0 <= m < 12 && 1 <= d
    ensures ValidDate(r)
    decreases d
  {
    if d <= MonthLength(y, m) then CivilDate(y, m, d)
    else if m == 11 then RollForward(y + 1, 0, d - MonthLength(y, m))
    else RollForward(y, m + 1, d - MonthLength(y, m))
  }

  /** Day underflow before the 1st, one month at a time. */
  function RollBack(y: int, m: int, d: int): (r: CivilDate)
    requires 0 <= m < 12 && d <= MonthLength(y, m)
    ensures ValidDate(r)
    decreases 1 - d
  {
    if 1 <= d then CivilDate(y, m, d)
    else if m == 0 then RollBack(y - 1, 11, d + MonthLength(y - 1, 11))
    else RollBack(y, m - 1, d + MonthLength(y, m - 1))
  }

  /** Rolling forward keeps the day on the time line where day `d` of the month puts it. */
  lemma {:induction false} RollForwardDayNumber(y: int, m: int, d: int)
    requires 0 <= m < 12 && 1 <= d
    ensures DayNumber(RollForward(y, m, d)) == DayFromYear(y) + DaysBeforeMonth(y, m) + d - 1
    decreases d
  {
    if d > MonthLength(y, m) {
      DaysBeforeMonthStep(y, m);
      if m == 11 {
        YearStep(y);
        RollForwardDayNumber(y + 1, 0, d - MonthLength(y, m));
      } else {
        RollForwardDayNumber(y, m + 1, d - MonthLength(y, m));
      }
    }
  }

  /** Rolling back keeps the day on the time line where day `d` of the month puts it. */
  lemma {:induction false} RollBackDayNumber(y: int, m: int, d: int)
    requires 0 <= m < 12 && d <= MonthLength(y, m)
    ensures DayNumber(RollBack(y, m, d)) == DayFromYear(y) + DaysBeforeMonth(y, m) + d - 1
    decreases 1 - d
  {
    if d < 1 {
      if m == 0 {
        DaysBeforeMonthStep(y - 1, 11);
        YearStep(y - 1);
        RollBackDayNumber(y - 1, 11, d + MonthLength(y - 1, 11));
      } else {
        DaysBeforeMonthStep(y, m - 1);
        RollBackDayNumber(y, m - 1, d + MonthLength(y, m - 1));
      }
    }
  }

  /** Two-digit years in the `Date` constructor mean 1900 to 1999. */
  function JsYear(y: int): int {
    if 0 <= y <= 99 then 1900 + y else y
  }

  /**
   * ECMAScript `MakeDay(year, month, date)`: month overflow moves whole years
   * (floor division and non-negative remainder by 12), day overflow is linear.
   */
  function MakeDay(y: int, m: int, d: int): int {
    var ym := y + m / 12;
    var mn := m % 12;
    DayFromYear(ym) + DaysBeforeMonth(ym, mn) + d - 1
  }

  /** The 1st of the next month is one month length after the 1st of this month. */
  lemma MakeDayNextMonth(y: int, m: int)
    requires 0 <= m < 12
    ensures MakeDay(y, m + 1, 1) == MakeDay(y, m, 1) + MonthLength(y, m)
  {
    assert m / 12 == 0 && m % 12 == m;
    DaysBeforeMonthStep(y, m);
    if m == 11 {
      assert (m + 1) / 12 == 1 && (m + 1) % 12 == 0;
      YearStep(y);
    } else {
      assert (m + 1) / 12 == 0 && (m + 1) % 12 == m + 1;
    }
  }

  /** `new Date(y, m, d)`, seen through its accessors. */
  function NewDate(y: int, m: int, d: int): (r: CivilDate)
    ensures ValidDate(r)
  {
    var yr := JsYear(y);
    Normalize(yr + m / 12, m % 12, d)
  }

  /**
   * `new Date(y, m, d)` is the day ECMAScript's `MakeDay` computes, and by
   * `DayNumberInjective` the only valid date there.
   */
  lemma NewDateDayNumber(y: int, m: int, d: int)
    ensures DayNumber(NewDate(y, m, d)) == MakeDay(JsYear(y), m, d)
  {
    var yr := JsYear(y);
    if d < 1 {
      RollBackDayNumber(yr + m / 12, m % 12, d);
    } else {
      RollForwardDayNumber(yr + m / 12, m % 12, d);
    }
  }

  /** Adding a multiple of `k` leaves the remainder modulo `k` alone. */
  lemma ModShift(x: int, k: int, q: int)
    requires k > 0
    ensures (x + k * q) % k == x % k
  {
    assert x + k * q == k * (x / k + q) + x % k;
    DivUnique(x + k * q, k, x / k + q, x % k);
  }

  /** Weekday arithmetic: remainders modulo 7 can be taken early. */
  lemma ModAdd7(a: int, b: int)
    ensures (a + b) % 7 == (a % 7 + b) % 7
  {
    ModShift(a % 7 + b, 7, a / 7);
  }

  /** `getDay()`: 0 is Sunday; 1 January 1970 was a Thursday. */
  function WeekDay(c: CivilDate): (w: int)
    requires 0 <= c.month < 12
    ensures 0 <= w < 7
  {
    (DayNumber(c) + 4) % 7
  }
}
