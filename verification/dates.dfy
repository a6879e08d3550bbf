/**
  Gregorian calendar arithmetic. Dates are integer day numbers in the
  proleptic Gregorian calendar, numbered like Python's `date.toordinal`
  (1 January of year 1 is day 1), so the difference of two day numbers is
  the `.days` of the difference of the two dates.
*/
module Dates {

  /** The year range accepted by Python's `datetime.date`. */
  const MinYear := 1
  const MaxYear := 9999

  predicate ValidYear(y: int) { MinYear <= y <= MaxYear }

  predicate ValidMonth(m: int) { 1 <= m <= 12 }

  predicate IsLeap(y: int) {
    y % 4 == 0 && (y % 100 != 0 || y % 400 == 0)
  }

  function YearLength(y: int): int {
    if IsLeap(y) then 366 else 365
  }

  /** Number of days of month `m` of year `y` (what `calendar.monthrange` returns second). */
  function DaysInMonth(y: int, m: int): (n: int)
    requires ValidMonth(m)
    ensures 28 <= n <= 31
  {
    if m == 2 then (if IsLeap(y) then 29 else 28)
    else if m == 4 || m == 6 || m == 9 || m == 11 then 30
    else 31
  }

  /** Days in the years before year `y`. */
  function DaysBeforeYear(y: int): int
    requires y >= 1
  {
    var p := y - 1;
    p * 365 + p / 4 - p / 100 + p / 400
  }

  /** Days in the months of year `y` before month `m` (`m == 13` gives the whole year). */
  function DaysBeforeMonth(y: int, m: int): (n: nat)
    requires 1 <= m <= 13
    decreases m
  {
    if m == 1 then 0 else DaysBeforeMonth(y, m - 1) + DaysInMonth(y, m - 1)
  }

  /** Day number of day `d` of month `m` of year `y`. */
  function Ordinal(y: int, m: int, d: int): (r: int)
    requires y >= 1 && ValidMonth(m) && 1 <= d <= DaysInMonth(y, m)
    ensures DaysBeforeYear(y) < r <= DaysBeforeYear(y) + YearLength(y)
    ensures DaysBeforeYear(y) + DaysBeforeMonth(y, m) < r <= DaysBeforeYear(y) + DaysBeforeMonth(y, m + 1)
  {
    MonthsFillYear(y);
    MonthsBeforeGrow(y, m + 1, 13);
    DaysBeforeYear(y) + DaysBeforeMonth(y, m) + d
  }

  /** The days before a month never decrease as the month advances. */
  lemma {:induction false} MonthsBeforeGrow(y: int, m: int, m': int)
    requires 1 <= m <= m' <= 13
    ensures DaysBeforeMonth(y, m) <= DaysBeforeMonth(y, m')
    decreases m' - m
  {
    if m < m' {
      MonthsBeforeGrow(y, m, m' - 1);
    }
  }

  /** The twelve month lengths add up to the length of the year. */
  lemma MonthsFillYear(y: int)
    ensures DaysBeforeMonth(y, 13) == YearLength(y)
  {
    assert DaysBeforeMonth(y, 13) == DaysBeforeMonth(y, 7) + 31 + 31 + 30 + 31 + 30 + 31;
    assert DaysBeforeMonth(y, 7) == DaysBeforeMonth(y, 2) + DaysInMonth(y, 2) + 31 + 30 + 31 + 30;
  }

  /** The closed-form count of days before a year steps by one year length. */
  lemma NextYear(y: int)
    requires y >= 1
    ensures DaysBeforeYear(y + 1) == DaysBeforeYear(y) + YearLength(y)
  {
    DivStep(y, 4);
    DivStep(y, 100);
    DivStep(y, 400);
    MultipleChain(y);
  }

  /** A multiple of 400 is a multiple of 100, and a multiple of 100 is a multiple of 4. */
  lemma MultipleChain(y: int)
    ensures y % 400 == 0 ==> y % 100 == 0
    ensures y % 100 == 0 ==> y % 4 == 0
  {
    if y % 400 == 0 {
      DivUnique(y, 100, 4 * (y / 400), 0);
    }
    if y % 100 == 0 {
      DivUnique(y, 4, 25 * (y / 100), 0);
    }
  }

  /** Moving from `y - 1` to `y`, the quotient by `n` grows by one exactly at a multiple of `n`. */
  lemma DivStep(y: int, n: int)
    requires n > 0
    ensures y / n == (y - 1) / n + (if y % n == 0 then 1 else 0)
  {
    var q, r := (y - 1) / n, (y - 1) % n;
    assert y - 1 == q * n + r && 0 <= r < n;
    if r == n - 1 {
      assert y == (q + 1) * n;
      DivUnique(y, n, q + 1, 0);
    } else {
      DivUnique(y, n, q, r + 1);
    }
  }

  /** Euclidean division is determined by quotient and remainder. */
  lemma DivUnique(a: int, n: int, q: int, r: int)
    requires n > 0 && a == q * n + r && 0 <= r < n
    ensures a / n == q && a % n == r
  {
    var q', r' := a / n, a % n;
    assert a == q' * n + r' && 0 <= r' < n;
    assert (q - q') * n == r' - r;
    if q > q' {
      AtLeastOnce(q - q', n);
      assert false;
    } else if q < q' {
      AtLeastOnce(q' - q, n);
      assert false;
    }
  }

  lemma AtLeastOnce(k: int, n: int)
    requires k >= 1 && n > 0
    ensures k * n >= n
  {
    assert (k - 1) * n >= 0;
  }

  /**
    Day numbers are contiguous: the day after the last day of a month is the
    first day of the next month (or of the next year after December).
  */
  lemma MonthsAreContiguous(y: int, m: int)
    requires y >= 1 && ValidMonth(m)
    ensures m < 12 ==> Ordinal(y, m, DaysInMonth(y, m)) + 1 == Ordinal(y, m + 1, 1)
    ensures m == 12 ==> Ordinal(y, m, DaysInMonth(y, m)) + 1 == Ordinal(y + 1, 1, 1)
  {
    if m == 12 {
      MonthsFillYear(y);
      NextYear(y);
    }
  }
}
