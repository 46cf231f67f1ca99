/** Proleptic Gregorian calendar arithmetic on whole-day numbers: the part of
    the date library the month view and the weekly rule rely on. */
module Calendar {
  import opened Types

  /** Day of the week, 0 = Sunday .. 6 = Saturday; day 0 (1970-01-01) is a Thursday. */
  function Weekday(d: Day): (w: int)
    ensures 0 <= w < 7
  {
    (d + 4) % 7
  }

  predicate IsLeapYear(y: int) {
    y % 4 == 0 && (y % 100 != 0 || y % 400 == 0)
  }

  function DaysInMonth(y: int, m: int): (n: int)
    requires 1 <= m <= 12
    ensures 28 <= n <= 31
  {
    if m == 2 then (if IsLeapYear(y) then 29 else 28)
    else if m == 4 || m == 6 || m == 9 || m == 11 then 30
    else 31
  }

  datatype CivilDate = CivilDate(year: int, month: int, day: int)

  predicate IsValidDate(c: CivilDate) {
    1 <= c.month <= 12 && 1 <= c.day <= DaysInMonth(c.year, c.month)
  }

  /** Days from 0000-03-01 to the first of March of year `y`: a year counted
      from March ends with its leap day, so its length depends only on `y + 1`. */
  function DaysToMarchFirst(y: int): int {
    365 * y + y / 4 - y / 100 + y / 400
  }

  /** The day number of `y`-`m`-`d` (months 1..12, day 1 is the first of the month). */
  function DaysFromCivil(y: int, m: int, d: int): Day
    requires 1 <= m <= 12
  {
    var marchYear := if m <= 2 then y - 1 else y;
    var monthFromMarch := if m > 2 then m - 3 else m + 9;
    DaysToMarchFirst(marchYear) + (153 * monthFromMarch + 2) / 5 + d - 1 - 719468
  }

  /** Two fixed points of the calendar: the epoch is day 0, a Thursday, and
      2024-06-03 is a Monday. */
  lemma KnownDates()
    ensures DaysFromCivil(1970, 1, 1) == 0 && Weekday(0) == 4
    ensures Weekday(DaysFromCivil(2024, 6, 3)) == 1
  {
  }

  lemma MulAtLeast(k: int, d: int)
    requires k > 0 && d >= 1
    ensures k * d >= k
  {
  }

  lemma MulSmall(k: int, d: int)
    requires k > 0 && -k < k * d < k
    ensures d == 0
  {
    if d >= 1 {
      MulAtLeast(k, d);
    } else if d <= -1 {
      MulAtLeast(k, -d);
    }
  }

  lemma DivisionUnique(a: int, k: int, q: int, r: int)
    requires k > 0 && 0 <= r < k && a == k * q + r
    ensures a / k == q && a % k == r
  {
    var d := a / k - q;
    assert k * d == r - a % k;
    MulSmall(k, d);
  }

  /** Stepping a year by one moves its quotient by k exactly when the new year
      is a multiple of k. */
  lemma QuotientStep(y: int, k: int)
    requires k > 0
    ensures (y + 1) / k - y / k == if (y + 1) % k == 0 then 1 else 0
  {
    var q, r := y / k, y % k;
    if r == k - 1 {
      DivisionUnique(y + 1, k, q + 1, 0);
    } else {
      DivisionUnique(y + 1, k, q, r + 1);
    }
  }

  lemma MultipleOfDivisor(x: int, k: int, c: int)
    requires k > 0 && c > 0 && x % (k * c) == 0
    ensures x % k == 0
  {
    var q := x / (k * c);
    assert x == (k * c) * q;
    DivisionUnique(x, k, c * q, 0);
  }

  /** A March-based year is 365 days long, plus the leap day of the following
      calendar year. */
  lemma {:induction false} MarchYearLength(y: int)
    ensures DaysToMarchFirst(y + 1) - DaysToMarchFirst(y) == if IsLeapYear(y + 1) then 366 else 365
  {
    QuotientStep(y, 4);
    QuotientStep(y, 100);
    QuotientStep(y, 400);
    if (y + 1) % 400 == 0 {
      MultipleOfDivisor(y + 1, 100, 4);
    }
    if (y + 1) % 100 == 0 {
      MultipleOfDivisor(y + 1, 4, 25);
    }
  }

  /** The calendar is consistent: the first of the next month is exactly
      `DaysInMonth` days after the first of this month. */
  lemma NextMonthFirst(y: int, m: int)
    requires 1 <= m <= 12
    ensures m < 12 ==> DaysFromCivil(y, m + 1, 1) == DaysFromCivil(y, m, 1) + DaysInMonth(y, m)
    ensures m == 12 ==> DaysFromCivil(y + 1, 1, 1) == DaysFromCivil(y, m, 1) + DaysInMonth(y, m)
  {
    if m == 2 {
      MarchYearLength(y - 1);
    }
  }
}
