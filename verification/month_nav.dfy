/** The calendar's previous/next month buttons. */
module MonthNav {

  /** The month on view: a year and a 0-based month. */
  datatype YearMonth = YearMonth(year: int, month: int)

  predicate Valid(v: YearMonth) {
    0 <= v.month <= 11
  }

  /** Months counted from January of year 0; consecutive months differ by one. */
  function MonthIndex(v: YearMonth): int {
    v.year * 12 + v.month
  }

  /** The inverse of `MonthIndex`. */
  function FromMonthIndex(i: int): (v: YearMonth)
    ensures Valid(v) && MonthIndex(v) == i
  {
    YearMonth(i / 12, i % 12)
  }

  /** `prevMonth`: January steps back to December of the year before. */
  function PrevMonth(v: YearMonth): (r: YearMonth)
    ensures MonthIndex(r) == MonthIndex(v) - 1
    ensures Valid(v) ==> Valid(r)
    ensures v.month == 0 ==> r == YearMonth(v.year - 1, 11)
    ensures v.month != 0 ==> r.year == v.year
  {
    if v.month == 0 then YearMonth(v.year - 1, 11)
    else YearMonth(v.year, v.month - 1)
  }

  /** `nextMonth`: December steps forward to January of the year after. */
  function NextMonth(v: YearMonth): (r: YearMonth)
    ensures MonthIndex(r) == MonthIndex(v) + 1
    ensures Valid(v) ==> Valid(r)
    ensures v.month == 11 ==> r == YearMonth(v.year + 1, 0)
    ensures v.month != 11 ==> r.year == v.year
  {
    if v.month == 11 then YearMonth(v.year + 1, 0)
    else YearMonth(v.year, v.month + 1)
  }

  /** On a valid month the index determines the month on view. */
  lemma MonthIndexInjective(a: YearMonth, b: YearMonth)
    requires Valid(a) && Valid(b)
    ensures MonthIndex(a) == MonthIndex(b) <==> a == b
  {
    if MonthIndex(a) == MonthIndex(b) {
      var i := MonthIndex(a);
      assert a.year == i / 12 && a.month == i % 12;
      assert b.year == i / 12 && b.month == i % 12;
    }
  }

  /** Both buttons agree with stepping the month index. */
  lemma StepsAreIndexSteps(v: YearMonth)
    requires Valid(v)
    ensures PrevMonth(v) == FromMonthIndex(MonthIndex(v) - 1)
    ensures NextMonth(v) == FromMonthIndex(MonthIndex(v) + 1)
  {
    MonthIndexInjective(PrevMonth(v), FromMonthIndex(MonthIndex(v) - 1));
    MonthIndexInjective(NextMonth(v), FromMonthIndex(MonthIndex(v) + 1));
  }

  /** The two buttons undo each other on a valid month. */
  lemma PrevNextInverse(v: YearMonth)
    requires Valid(v)
    ensures NextMonth(PrevMonth(v)) == v
    ensures PrevMonth(NextMonth(v)) == v
  {
    MonthIndexInjective(NextMonth(PrevMonth(v)), v);
    MonthIndexInjective(PrevMonth(NextMonth(v)), v);
  }

  /** Twelve presses of `next` move to the same month of the next year. */
  lemma TwelveStepsIsAYear(v: YearMonth)
    requires Valid(v)
    ensures Iterate(v, 12) == YearMonth(v.year + 1, v.month)
  {
    IterateIndex(v, 12);
    MonthIndexInjective(Iterate(v, 12), YearMonth(v.year + 1, v.month));
  }

  /** `n` presses of the next-month button. */
  function Iterate(v: YearMonth, n: nat): YearMonth {
    if n == 0 then v else NextMonth(Iterate(v, n - 1))
  }

  lemma {:induction false} IterateIndex(v: YearMonth, n: nat)
    requires Valid(v)
    ensures Valid(Iterate(v, n)) && MonthIndex(Iterate(v, n)) == MonthIndex(v) + n
  {
    if n > 0 {
      IterateIndex(v, n - 1);
    }
  }
}
