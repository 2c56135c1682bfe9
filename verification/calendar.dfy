/** Month lengths of the proleptic Gregorian calendar, and `getDaysInMonth`
    as the history page computes it with JavaScript's `Date`. */
module Calendar {
  import opened MonthNav

  predicate IsLeapYear(y: int) {
    (y % 4 == 0 && y % 100 != 0) || y % 400 == 0
  }

  /** Reference table: the length of 0-based month `m` of year `y`. */
  function MonthLength(y: int, m: int): (n: int)
    requires 0 <= m < 12
  {
    if m == 1 then (if IsLeapYear(y) then 29 else 28)
    else if m == 3 || m == 5 || m == 8 || m == 10 then 30
    else 31
  }

  /** The year `new Date(y, …)` actually uses: the constructor reads a year
      in 0..99 as 1900..1999. */
  function ConstructorYear(y: int): int {
    if 0 <= y <= 99 then 1900 + y else y
  }

  /** `new Date(y, m + 1, 0).getDate()`: day 0 of month m+1 is the day before
      that month's first day, so the result is the last day of the month
      before it. */
  function DaysInMonth(y: int, m: int): (n: int)
    ensures 28 <= n <= 31
  {
    var next := FromMonthIndex(ConstructorYear(y) * 12 + m + 1);
    var before := PrevMonth(next);
    MonthLength(before.year, before.month)
  }

  /** Whatever the arguments, the result is the length of month `m`
      normalised into the constructor's year. */
  lemma DaysInMonthNormalizes(y: int, m: int)
    ensures DaysInMonth(y, m) == MonthLength(ConstructorYear(y) + m / 12, m % 12)
  {
    var i := ConstructorYear(y) * 12 + m;
    StepsAreIndexSteps(FromMonthIndex(i + 1));
    PrevNextInverse(FromMonthIndex(i));
    MonthIndexInjective(FromMonthIndex(i), YearMonth(ConstructorYear(y) + m / 12, m % 12));
  }

  /** For a year outside 0..99 and a month in 0..11 the result is the
      Gregorian length of that very month. */
  lemma DaysInMonthIsGregorian(y: int, m: int)
    requires !(0 <= y <= 99) && 0 <= m < 12
    ensures DaysInMonth(y, m) == MonthLength(y, m)
    ensures DaysInMonth(y, m) == 29 <==> m == 1 && IsLeapYear(y)
    ensures DaysInMonth(y, m) == 28 <==> m == 1 && !IsLeapYear(y)
  {
    DaysInMonthNormalizes(y, m);
  }

  /** A year in 0..99 is read as 1900..1999, so e.g. February of year 0
      has 28 days although year 0 is a Gregorian leap year. */
  lemma TwoDigitYears(y: int, m: int)
    requires 0 <= y <= 99
    ensures DaysInMonth(y, m) == DaysInMonth(1900 + y, m)
  {
    DaysInMonthNormalizes(y, m);
    DaysInMonthNormalizes(1900 + y, m);
  }

  /** Month overflow: month 12 + m of year y is month m of year y + 1. */
  lemma MonthOverflow(y: int, m: int)
    requires !(0 <= y <= 99) && !(0 <= y + 1 <= 99)
    ensures DaysInMonth(y, m + 12) == DaysInMonth(y + 1, m)
  {
    DaysInMonthNormalizes(y, m + 12);
    DaysInMonthNormalizes(y + 1, m);
    assert (m + 12) / 12 == m / 12 + 1 && (m + 12) % 12 == m % 12;
  }

  /** Total length of the first `k` months of year `y`. */
  function DaysBeforeMonth(y: int, k: int): (n: int)
    requires 0 <= k <= 12
    decreases k
  {
    if k == 0 then 0 else DaysBeforeMonth(y, k - 1) + MonthLength(y, k - 1)
  }

  /** The twelve month lengths add up to the length of the year. */
  lemma YearLength(y: int)
    ensures DaysBeforeMonth(y, 12) == if IsLeapYear(y) then 366 else 365
  {
    assert DaysBeforeMonth(y, 4) == MonthLength(y, 1) + 92;
    assert DaysBeforeMonth(y, 8) == MonthLength(y, 1) + 215;
  }
}
