/**
 The proleptic Gregorian calendar, as day numbers (day 1 is 0001-01-01, a Monday), and
 the instants at which months begin. The holiday deriver, the volume ratio and the
 window stamps all count with it.
 */
module Calendar {

  const SECONDS_PER_DAY := 86400

  predicate IsLeap(y: int) {
    y % 4 == 0 && (y % 100 != 0 || y % 400 == 0)
  }

  function DaysInMonth(y: int, m: int): (n: int)
    requires 1 <= m <= 12
    ensures 28 <= n <= 31
    ensures m == 12 ==> n == 31
  {
    if m == 2 then (if IsLeap(y) then 29 else 28)
    else if m == 4 || m == 6 || m == 9 || m == 11 then 30
    else 31
  }

  function DaysBeforeMonth(y: int, m: int): (n: int)
    requires 1 <= m <= 12
    ensures 28 * (m - 1) <= n <= 31 * (m - 1)
  {
    if m == 1 then 0 else DaysBeforeMonth(y, m - 1) + DaysInMonth(y, m - 1)
  }

  function DaysInYear(y: int): int {
    if IsLeap(y) then 366 else 365
  }

  /** The days before 1 January of a year, counted year by year from year 1. */
  function DaysBeforeYear(y: int): int
    decreases if y < 1 then 2 - y else y
  {
    if y == 1 then 0
    else if y > 1 then DaysBeforeYear(y - 1) + DaysInYear(y - 1)
    else DaysBeforeYear(y + 1) - DaysInYear(y)
  }

  function Ordinal(y: int, m: int, d: int): int
    requires 1 <= m <= 12
  {
    DaysBeforeYear(y) + DaysBeforeMonth(y, m) + d
  }

  /** 0 is Monday and 6 is Sunday. */
  function Weekday(day: int): (w: int)
    ensures 0 <= w < 7
  {
    (day + 6) % 7
  }

  lemma YearLength(y: int)
    ensures DaysBeforeYear(y + 1) == DaysBeforeYear(y) + DaysInYear(y)
  {
  }

  /** The count agrees with the closed form that Python's `date.toordinal` uses. */
  lemma {:induction false} ClosedForm(y: int)
    ensures DaysBeforeYear(y) == 365 * (y - 1) + (y - 1) / 4 - (y - 1) / 100 + (y - 1) / 400
    decreases if y < 1 then 2 - y else y
  {
    if y > 1 {
      ClosedForm(y - 1);
      LeapStep(y - 1);
    } else if y < 1 {
      ClosedForm(y + 1);
      LeapStep(y);
    }
  }

  lemma QuotientStep(y: int, k: int)
    requires k in {4, 100, 400}
    ensures y / k == (y - 1) / k + if y % k == 0 then 1 else 0
  {
  }

  lemma LeapStep(y: int)
    ensures DaysInYear(y) == 365 + (y / 4 - (y - 1) / 4) - (y / 100 - (y - 1) / 100) + (y / 400 - (y - 1) / 400)
  {
    QuotientStep(y, 4);
    QuotientStep(y, 100);
    QuotientStep(y, 400);
  }

  /** The days of the year before each month, in figures. */
  lemma MonthOffsets(y: int)
    ensures var leap := if IsLeap(y) then 1 else 0;
            && DaysBeforeMonth(y, 1) == 0
            && DaysBeforeMonth(y, 2) == 31
            && DaysBeforeMonth(y, 3) == 59 + leap
            && DaysBeforeMonth(y, 4) == 90 + leap
            && DaysBeforeMonth(y, 5) == 120 + leap
            && DaysBeforeMonth(y, 6) == 151 + leap
            && DaysBeforeMonth(y, 7) == 181 + leap
            && DaysBeforeMonth(y, 8) == 212 + leap
            && DaysBeforeMonth(y, 9) == 243 + leap
            && DaysBeforeMonth(y, 10) == 273 + leap
            && DaysBeforeMonth(y, 11) == 304 + leap
            && DaysBeforeMonth(y, 12) == 334 + leap
            && DaysBeforeMonth(y, 12) + DaysInMonth(y, 12) == 365 + leap
  {
    assert DaysBeforeMonth(y, 3) == 59 + if IsLeap(y) then 1 else 0;
    assert DaysBeforeMonth(y, 4) == 90 + if IsLeap(y) then 1 else 0;
    assert DaysBeforeMonth(y, 5) == 120 + if IsLeap(y) then 1 else 0;
    assert DaysBeforeMonth(y, 6) == 151 + if IsLeap(y) then 1 else 0;
    assert DaysBeforeMonth(y, 7) == 181 + if IsLeap(y) then 1 else 0;
    assert DaysBeforeMonth(y, 8) == 212 + if IsLeap(y) then 1 else 0;
    assert DaysBeforeMonth(y, 9) == 243 + if IsLeap(y) then 1 else 0;
    assert DaysBeforeMonth(y, 10) == 273 + if IsLeap(y) then 1 else 0;
    assert DaysBeforeMonth(y, 11) == 304 + if IsLeap(y) then 1 else 0;
  }

  // ---------------------------------------------------------------- months ---

  /** Months are numbered 12 * year + (month - 1), so the month after i is i + 1. */
  function MonthLength(i: int): (n: int)
    ensures 28 <= n <= 31
  {
    DaysInMonth(i / 12, i % 12 + 1)
  }

  /** The day number of the first of month i, counted month by month from January of year 1. */
  function FirstDay(i: int): int
    decreases if i < 12 then 24 - i else i
  {
    if i == 12 then 1
    else if i > 12 then FirstDay(i - 1) + MonthLength(i - 1)
    else FirstDay(i + 1) - MonthLength(i)
  }

  lemma NextMonth(i: int)
    ensures FirstDay(i + 1) == FirstDay(i) + MonthLength(i)
  {
  }

  lemma YearEnd(y: int)
    ensures DaysBeforeMonth(y, 12) + 31 == DaysInYear(y)
  {
    MonthOffsets(y);
  }

  lemma MonthLengthIs(y: int, m: int)
    requires 1 <= m <= 12
    ensures MonthLength(12 * y + m - 1) == DaysInMonth(y, m)
  {
    assert (12 * y + m - 1) / 12 == y;
  }

  lemma {:induction false} MonthsOfYear(y: int, m: int)
    requires 1 <= m <= 12
    ensures FirstDay(12 * y + m - 1) == FirstDay(12 * y) + DaysBeforeMonth(y, m)
    decreases m
  {
    hide MonthLength, DaysInMonth;
    if m > 1 {
      MonthsOfYear(y, m - 1);
      MonthLengthIs(y, m - 1);
      NextMonth(12 * y + m - 2);
    }
  }

  lemma YearOfMonths(y: int)
    ensures FirstDay(12 * (y + 1)) == FirstDay(12 * y) + DaysInYear(y)
  {
    hide MonthLength, DaysBeforeMonth, DaysInYear;
    MonthsOfYear(y, 12);
    MonthLengthIs(y, 12);
    NextMonth(12 * y + 11);
    YearEnd(y);
  }

  lemma {:induction false} Januaries(y: int)
    ensures FirstDay(12 * y) == DaysBeforeYear(y) + 1
    decreases if y < 1 then 2 - y else y
  {
    hide MonthLength, DaysInYear;
    if y > 1 {
      Januaries(y - 1);
      YearOfMonths(y - 1);
    } else if y < 1 {
      Januaries(y + 1);
      YearOfMonths(y);
    }
  }

  /** Counting by months and counting by years reach the same day. */
  lemma FirstDayIsOrdinal(y: int, m: int)
    requires 1 <= m <= 12
    ensures FirstDay(12 * y + m - 1) == Ordinal(y, m, 1)
  {
    hide MonthLength, DaysInYear, DaysInMonth;
    MonthsOfYear(y, m);
    Januaries(y);
  }

  /** The first instant of a month, in seconds. */
  function StartOf(i: int): int {
    SECONDS_PER_DAY * FirstDay(i)
  }

  lemma StartsIncrease(i: int, j: int)
    requires i <= j
    ensures StartOf(i) + SECONDS_PER_DAY * 28 * (j - i) <= StartOf(j)
    decreases j - i
  {
    hide StartOf;
    if i < j {
      StartsIncrease(i, j - 1);
      NextStart(j - 1);
    }
  }

  lemma NextStart(i: int)
    ensures StartOf(i) + SECONDS_PER_DAY * 28 <= StartOf(i + 1)
  {
    NextMonth(i);
  }

  /** The month an instant falls in. */
  function MonthOf(t: int): int {
    if StartOf(0) <= t then SearchUp(t, 0) else SearchDown(t, -1)
  }

  function SearchUp(t: int, i: int): int
    requires StartOf(i) <= t
    decreases t - StartOf(i)
  {
    hide FirstDay;
    StartsIncrease(i, i + 1);
    if t < StartOf(i + 1) then i else SearchUp(t, i + 1)
  }

  function SearchDown(t: int, i: int): int
    requires t < StartOf(i + 1)
    decreases StartOf(i + 1) - t
  {
    hide FirstDay;
    StartsIncrease(i, i + 1);
    if StartOf(i) <= t then i else SearchDown(t, i - 1)
  }

  lemma {:induction false} SearchUpSpans(t: int, i: int)
    requires StartOf(i) <= t
    ensures var r := SearchUp(t, i); StartOf(r) <= t < StartOf(r + 1)
    decreases t - StartOf(i)
  {
    hide StartOf;
    StartsIncrease(i, i + 1);
    if StartOf(i + 1) <= t { SearchUpSpans(t, i + 1); }
  }

  lemma {:induction false} SearchDownSpans(t: int, i: int)
    requires t < StartOf(i + 1)
    ensures var r := SearchDown(t, i); StartOf(r) <= t < StartOf(r + 1)
    decreases StartOf(i + 1) - t
  {
    hide StartOf;
    StartsIncrease(i, i + 1);
    if t < StartOf(i) { SearchDownSpans(t, i - 1); }
  }

  /** An instant lies in its month. */
  lemma MonthSpans(t: int)
    ensures StartOf(MonthOf(t)) <= t < StartOf(MonthOf(t) + 1)
  {
    hide StartOf, SearchUp, SearchDown;
    if StartOf(0) <= t { SearchUpSpans(t, 0); } else { SearchDownSpans(t, -1); }
  }

  /** A month has begun by t exactly when it is no later than t's own month. */
  lemma BegunIff(i: int, t: int)
    ensures StartOf(i) <= t <==> i <= MonthOf(t)
  {
    hide StartOf, MonthOf;
    var m := MonthOf(t);
    MonthSpans(t);
    if i <= m {
      StartsIncrease(i, m);
    } else {
      StartsIncrease(m + 1, i);
    }
  }

  lemma MonthOfStart(i: int)
    ensures MonthOf(StartOf(i)) == i
  {
    hide StartOf, MonthOf;
    BegunIff(i, StartOf(i));
    StartsIncrease(i, i + 1);
    BegunIff(i + 1, StartOf(i));
  }
}
