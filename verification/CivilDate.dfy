/** Day numbers of civil dates (crates/live-sports/src/espn.rs:214-226). */
module CivilDate {

  /** Rust's `/` on signed integers: towards zero. */
  function TruncDiv(a: int, b: int): (q: int)
    requires b > 0
    ensures a >= 0 ==> q == a / b
    ensures a < 0 ==> q == -((-a) / b)
  {
    if a >= 0 then a / b else -((-a) / b)
  }

  function DaysFromCivil(year: int, month: int, day: int): int {
    var y := if month <= 2 then year - 1 else year;
    var era := TruncDiv(if y >= 0 then y else y - 399, 400);
    var yoe := y - era * 400;
    var doy := TruncDiv(153 * (if month > 2 then month - 3 else month + 9) + 2, 5) + day - 1;
    var doe := yoe * 365 + TruncDiv(yoe, 4) - TruncDiv(yoe, 100) + doy;
    era * 146097 + doe - 719468
  }

  // ---------------------------------------------------------------------------------------------
  // The proleptic Gregorian calendar

  predicate Leap(y: int) { y % 4 == 0 && (y % 100 != 0 || y % 400 == 0) }

  function YearLength(y: int): nat { if Leap(y) then 366 else 365 }

  function MonthLength(y: int, m: int): nat {
    if m == 2 then if Leap(y) then 29 else 28
    else if m in {4, 6, 9, 11} then 30
    else 31
  }

  predicate ValidDate(y: int, m: int, d: int) {
    1 <= m <= 12 && 1 <= d <= MonthLength(y, m)
  }

  /** Days from 1 January 1970 to 1 January of a year, counted year by year, either way. */
  function DaysToYear(y: int): int
    decreases if y >= 1970 then y - 1970 else 1970 - y
  {
    if y == 1970 then 0
    else if y > 1970 then DaysToYear(y - 1) + YearLength(y - 1)
    else DaysToYear(y + 1) - YearLength(y)
  }

  /** Days from 1 January to the first of a month, counted month by month. */
  function DaysToMonth(y: int, m: int): nat
    requires 1 <= m <= 12
  {
    if m == 1 then 0 else DaysToMonth(y, m - 1) + MonthLength(y, m - 1)
  }

  function DayNumber(y: int, m: int, d: int): int
    requires 1 <= m <= 12
  {
    DaysToYear(y) + DaysToMonth(y, m) + d - 1
  }

  // ---------------------------------------------------------------------------------------------
  // The computation is the count

  /** The era form of the year part is the usual count of leap days. */
  function YearPart(y: int): int { 365 * y + y / 4 - y / 100 + y / 400 }

  lemma EraFormIsYearPart(y: int)
    ensures var era := TruncDiv(if y >= 0 then y else y - 399, 400);
      var yoe := y - era * 400;
      && 0 <= yoe < 400
      && era * 146097 + yoe * 365 + TruncDiv(yoe, 4) - TruncDiv(yoe, 100) == YearPart(y)
  {
    var era := TruncDiv(if y >= 0 then y else y - 399, 400);
    var yoe := y - era * 400;
    assert era == y / 400;
    assert y / 4 == era * 100 + yoe / 4;
    assert y / 100 == era * 4 + yoe / 100;
  }

  lemma ComputedAs(year: int, month: int, day: int)
    requires 1 <= month <= 12
    ensures DaysFromCivil(year, month, day)
         == YearPart(if month <= 2 then year - 1 else year)
            + (153 * (if month > 2 then month - 3 else month + 9) + 2) / 5 + day - 1 - 719468
  {
    EraFormIsYearPart(if month <= 2 then year - 1 else year);
  }

  /** Only where a period begins does the quotient grow. */
  lemma QuotientGrows(y: int, k: int)
    requires k > 1
    ensures y / k - (y - 1) / k == if y % k == 0 then 1 else 0
  {
    var q, r := y / k, y % k;
    if r == 0 {
      QuotientIs(y - 1, k, q - 1, k - 1);
    } else {
      QuotientIs(y - 1, k, q, r - 1);
    }
  }

  lemma QuotientIs(n: int, k: int, q: int, r: int)
    requires k > 0 && n == k * q + r && 0 <= r < k
    ensures n / k == q && n % k == r
  {
    var d := n / k - q;
    assert (d >= 1 ==> k * d >= k) && (d <= -1 ==> k * d <= -k);
    assert k * (n / k) + n % k == k * q + r;
    assert k * d == r - n % k;
  }

  lemma LeapPeriods(y: int)
    ensures (y % 400 == 0 ==> y % 100 == 0) && (y % 100 == 0 ==> y % 4 == 0)
  {
    if y % 400 == 0 {
      QuotientIs(y, 100, 4 * (y / 400), 0);
    }
    if y % 100 == 0 {
      QuotientIs(y, 4, 25 * (y / 100), 0);
    }
  }

  lemma YearPartGrows(y: int)
    ensures YearPart(y) - YearPart(y - 1) == YearLength(y)
  {
    QuotientGrows(y, 4);
    QuotientGrows(y, 100);
    QuotientGrows(y, 400);
    LeapPeriods(y);
  }

  lemma EpochIsZero()
    ensures DaysFromCivil(1970, 1, 1) == 0
  {
  }

  lemma {:induction false} YearsAgree(y: int)
    ensures DaysFromCivil(y, 1, 1) == DaysToYear(y)
    decreases if y >= 1970 then y - 1970 else 1970 - y
  {
    hide DaysFromCivil, YearPart, YearLength;
    ComputedAs(y, 1, 1);
    if y > 1970 {
      YearsAgree(y - 1);
      ComputedAs(y - 1, 1, 1);
      YearPartGrows(y - 1);
    } else if y < 1970 {
      YearsAgree(y + 1);
      ComputedAs(y + 1, 1, 1);
      YearPartGrows(y);
    } else {
      EpochIsZero();
    }
  }

  lemma MonthStep(y: int, m: int)
    requires 2 <= m <= 12
    ensures DaysFromCivil(y, m, 1) == DaysFromCivil(y, m - 1, 1) + MonthLength(y, m - 1)
  {
    hide DaysFromCivil, YearPart;
    ComputedAs(y, m, 1);
    ComputedAs(y, m - 1, 1);
    YearPartGrows(y);
  }

  lemma {:induction false} MonthsAgree(y: int, m: int)
    requires 1 <= m <= 12
    ensures DaysFromCivil(y, m, 1) == DaysToYear(y) + DaysToMonth(y, m)
  {
    if m == 1 {
      YearsAgree(y);
    } else {
      MonthsAgree(y, m - 1);
      MonthStep(y, m);
    }
  }

  /** For every year, also before year 1, the computed day number is the count of days. */
  lemma ComputesTheDayNumber(y: int, m: int, d: int)
    requires 1 <= m <= 12
    ensures DaysFromCivil(y, m, d) == DayNumber(y, m, d)
  {
    MonthsAgree(y, m);
    ComputedAs(y, m, d);
    ComputedAs(y, m, 1);
  }

  // ---------------------------------------------------------------------------------------------
  // Order

  predicate Earlier(y1: int, m1: int, d1: int, y2: int, m2: int, d2: int) {
    y1 < y2 || (y1 == y2 && (m1 < m2 || (m1 == m2 && d1 < d2)))
  }

  lemma {:induction false} YearsAhead(y: int, z: int)
    requires y < z
    ensures DaysToYear(y) + YearLength(y) <= DaysToYear(z)
    decreases z - y
  {
    if y + 1 < z {
      YearsAhead(y, z - 1);
    }
  }

  lemma {:induction false} MonthsAhead(y: int, m: int, n: int)
    requires 1 <= m < n <= 12
    ensures DaysToMonth(y, m) + MonthLength(y, m) <= DaysToMonth(y, n)
    decreases n
  {
    if m + 1 < n {
      MonthsAhead(y, m, n - 1);
    }
  }

  lemma YearIsItsMonths(y: int)
    ensures DaysToMonth(y, 12) + MonthLength(y, 12) == YearLength(y)
  {
    assert DaysToMonth(y, 2) == 31;
    assert DaysToMonth(y, 3) == 31 + MonthLength(y, 2);
    assert DaysToMonth(y, 5) == DaysToMonth(y, 3) + 61;
    assert DaysToMonth(y, 7) == DaysToMonth(y, 5) + 61;
    assert DaysToMonth(y, 9) == DaysToMonth(y, 7) + 62;
    assert DaysToMonth(y, 11) == DaysToMonth(y, 9) + 61;
    assert DaysToMonth(y, 12) == DaysToMonth(y, 11) + 30;
  }

  lemma WithinYear(y: int, m: int, d: int)
    requires ValidDate(y, m, d)
    ensures 0 <= DaysToMonth(y, m) + d - 1 < YearLength(y)
  {
    YearIsItsMonths(y);
    if m < 12 {
      MonthsAhead(y, m, 12);
    }
  }

  lemma LaterMeansMore(y1: int, m1: int, d1: int, y2: int, m2: int, d2: int)
    requires ValidDate(y1, m1, d1) && ValidDate(y2, m2, d2) && Earlier(y1, m1, d1, y2, m2, d2)
    ensures DaysFromCivil(y1, m1, d1) < DaysFromCivil(y2, m2, d2)
  {
    ComputesTheDayNumber(y1, m1, d1);
    ComputesTheDayNumber(y2, m2, d2);
    WithinYear(y1, m1, d1);
    WithinYear(y2, m2, d2);
    if y1 < y2 {
      YearsAhead(y1, y2);
    } else if m1 < m2 {
      MonthsAhead(y1, m1, m2);
    }
  }

  /** On valid dates the day number orders exactly as the calendar does, so no two share one. */
  lemma OrdersAsTheCalendar(y1: int, m1: int, d1: int, y2: int, m2: int, d2: int)
    requires ValidDate(y1, m1, d1) && ValidDate(y2, m2, d2)
    ensures DaysFromCivil(y1, m1, d1) < DaysFromCivil(y2, m2, d2) <==> Earlier(y1, m1, d1, y2, m2, d2)
    ensures DaysFromCivil(y1, m1, d1) == DaysFromCivil(y2, m2, d2) <==> (y1, m1, d1) == (y2, m2, d2)
  {
    if Earlier(y1, m1, d1, y2, m2, d2) {
      LaterMeansMore(y1, m1, d1, y2, m2, d2);
    } else if Earlier(y2, m2, d2, y1, m1, d1) {
      LaterMeansMore(y2, m2, d2, y1, m1, d1);
    }
  }

  /** The next valid date has the next number. */
  lemma NextDayIsOneMore(y: int, m: int, d: int)
    requires ValidDate(y, m, d)
    ensures d < MonthLength(y, m) ==> DaysFromCivil(y, m, d + 1) == DaysFromCivil(y, m, d) + 1
    ensures d == MonthLength(y, m) && m < 12 ==> DaysFromCivil(y, m + 1, 1) == DaysFromCivil(y, m, d) + 1
    ensures d == MonthLength(y, m) && m == 12 ==> DaysFromCivil(y + 1, 1, 1) == DaysFromCivil(y, m, d) + 1
    ensures DaysFromCivil(1970, 1, 1) == 0
  {
    ComputesTheDayNumber(y, m, d);
    if d < MonthLength(y, m) {
      ComputesTheDayNumber(y, m, d + 1);
    } else if m < 12 {
      ComputesTheDayNumber(y, m + 1, 1);
    } else {
      ComputesTheDayNumber(y + 1, 1, 1);
      YearIsItsMonths(y);
      YearsAhead(y, y + 1);
      assert DaysToYear(y + 1) == DaysToYear(y) + YearLength(y);
    }
    ComputesTheDayNumber(1970, 1, 1);
  }
}
