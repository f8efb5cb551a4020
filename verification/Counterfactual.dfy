/**
 The volume-ratio counterfactual: delete a month's quietest days one at a time and watch the
 ratio under the calendar denominator and under the observed-days one. Exact reals stand for
 the floats.
 */
module Counterfactual {
  import opened Base
  import opened Calendar

  datatype YearMonth = YearMonth(year: int, month: int)

  /** The days a set of months covers; a month number outside the calendar raises. */
  function CalendarDays(months: seq<YearMonth>): Option<nat> {
    if months == [] then Some(0)
    else
      var before, last := CalendarDays(months[..|months| - 1]), months[|months| - 1];
      if before.None? || !(1 <= last.month <= 12) then None
      else Some(before.value + DaysInMonth(last.year, last.month))
  }

  /** `calendar_days`. */
  method SumCalendarDays(months: seq<YearMonth>) returns (total: Option<nat>)
    ensures total == CalendarDays(months)
    ensures total.Some? <==> forall i :: 0 <= i < |months| ==> 1 <= months[i].month <= 12
    ensures total.Some? ==> 28 * |months| <= total.value <= 31 * |months|
  {
    var sum := 0;
    for i := 0 to |months|
      invariant CalendarDays(months[..i]) == Some(sum) && 28 * i <= sum <= 31 * i
      invariant forall j :: 0 <= j < i ==> 1 <= months[j].month <= 12
    {
      assert months[..i + 1][..i] == months[..i];
      if !(1 <= months[i].month <= 12) {
        NoCalendarDays(months, i);
        return None;
      }
      sum := sum + DaysInMonth(months[i].year, months[i].month);
    }
    assert months[..|months|] == months;
    return Some(sum);
  }

  lemma {:induction false} NoCalendarDays(months: seq<YearMonth>, i: nat)
    requires i < |months| && !(1 <= months[i].month <= 12)
    ensures CalendarDays(months).None?
  {
    if i < |months| - 1 { NoCalendarDays(months[..|months| - 1], i); }
  }

  /** A further month adds the days from its first to the first of the month after it. */
  lemma CalendarDaysAre(months: seq<YearMonth>, y: int, m: int)
    requires 1 <= m <= 12
    ensures CalendarDays([]) == Some(0)
    ensures CalendarDays(months).Some? ==>
              CalendarDays(months + [YearMonth(y, m)]) ==
              Some(CalendarDays(months).value +
                   (if m == 12 then Ordinal(y + 1, 1, 1) else Ordinal(y, m + 1, 1)) - Ordinal(y, m, 1))
  {
    assert (months + [YearMonth(y, m)])[..|months|] == months;
    YearLength(y);
    YearEnd(y);
  }

  /** `trips_per_day`. */
  function TripsPerDay(rows: nat, days: nat): real {
    if days != 0 then rows as real / days as real else 0.0
  }

  function RowsLeft(counts: seq<nat>): nat {
    if counts == [] then 0 else counts[0] + RowsLeft(counts[1..])
  }

  /** Python's `daily[k:]`, which is empty past the end. */
  function Left(daily: seq<nat>, k: nat): seq<nat> {
    if k <= |daily| then daily[k..] else []
  }

  function CalendarRatio(daily: seq<nat>, k: nat, calendar: nat, reference: real): real
    requires reference != 0.0
  {
    TripsPerDay(RowsLeft(Left(daily, k)), calendar) / reference
  }

  function ObservedRatio(daily: seq<nat>, k: nat, reference: real): real
    requires reference != 0.0
  {
    TripsPerDay(RowsLeft(Left(daily, k)), |Left(daily, k)|) / reference
  }

  datatype Verdict = StillNonMonotonic | NotReproduced | Confirmed

  datatype Report = Report(fixed: seq<real>, observed: seq<real>, verdict: Verdict)

  /** The loop divides by the reference and by the days left, and either may be zero. */
  datatype Crash = ZeroDivision

  predicate Falling(series: seq<real>) {
    forall k :: 1 <= k < |series| ==> series[k] < series[k - 1]
  }

  predicate Rose(series: seq<real>) {
    exists k :: 1 <= k < |series| && series[k] > series[k - 1]
  }

  predicate Under(series: seq<real>, bar: real) {
    forall k :: 0 <= k < |series| ==> series[k] < bar
  }

  function Judge(fixed: seq<real>, observed: seq<real>, bar: real): Verdict {
    if !Falling(fixed) || !Under(fixed, bar) then StillNonMonotonic
    else if !Rose(observed) then NotReproduced
    else Confirmed
  }

  function Steps(maxZeroed: int): nat {
    if maxZeroed < 0 then 0 else maxZeroed + 1
  }

  /** The loop of `main` and the verdict after it. */
  method Counterfactual(daily: seq<nat>, calendar: nat, reference: real, bar: real, maxZeroed: int)
    returns (result: Result<Report, Crash>)
    requires calendar > 0
    ensures result.Err? <==> maxZeroed >= 0 && (reference == 0.0 || maxZeroed >= |daily|)
    ensures result.Ok? ==>
              var r := result.value;
              && |r.fixed| == |r.observed| == Steps(maxZeroed)
              && (forall k :: 0 <= k < |r.fixed| ==>
                  reference != 0.0 && r.fixed[k] == CalendarRatio(daily, k, calendar, reference))
              && (forall k :: 0 <= k < |r.observed| ==>
                  reference != 0.0 && r.observed[k] == ObservedRatio(daily, k, reference))
              && r.verdict == Judge(r.fixed, r.observed, bar)
  {
    hide TripsPerDay, RowsLeft;
    var fixed: seq<real> := [];
    var observed: seq<real> := [];
    for zeroed := 0 to Steps(maxZeroed)
      invariant zeroed > 0 ==> reference != 0.0
      invariant zeroed <= |daily|
      invariant |fixed| == |observed| == zeroed
      invariant forall k :: 0 <= k < zeroed ==> fixed[k] == CalendarRatio(daily, k, calendar, reference)
      invariant forall k :: 0 <= k < zeroed ==> observed[k] == ObservedRatio(daily, k, reference)
    {
      if reference == 0.0 {
        return Err(ZeroDivision);
      }
      var left := Left(daily, zeroed);
      var rows := RowsLeft(left);
      fixed := fixed + [TripsPerDay(rows, calendar) / reference];
      observed := observed + [TripsPerDay(rows, |left|) / reference];
      if |left| == 0 {
        return Err(ZeroDivision);
      }
    }
    return Ok(Report(fixed, observed, Judge(fixed, observed, bar)));
  }

  // ------------------------------------------------------------ the two ratios ---

  /** What the query hands over: counts of days that held a trip, quietest first. */
  ghost predicate Quietest(daily: seq<nat>) {
    && (forall i :: 0 <= i < |daily| ==> daily[i] > 0)
    && (forall i, j :: 0 <= i <= j < |daily| ==> daily[i] <= daily[j])
  }

  function TripsOf(counts: seq<nat>): nat {
    if counts == [] then 0 else TripsOf(counts[..|counts| - 1]) + counts[|counts| - 1]
  }

  lemma {:induction false} TripsAppend(a: seq<nat>, b: seq<nat>)
    ensures TripsOf(a + b) == TripsOf(a) + TripsOf(b)
  {
    if b == [] {
      assert a + b == a;
    } else {
      assert (a + b)[..|a + b| - 1] == a + b[..|b| - 1];
      TripsAppend(a, b[..|b| - 1]);
    }
  }

  lemma {:induction false} RowsLeftAre(counts: seq<nat>)
    ensures RowsLeft(counts) == TripsOf(counts)
  {
    if counts != [] {
      RowsLeftAre(counts[1..]);
      assert counts == [counts[0]] + counts[1..];
      TripsAppend([counts[0]], counts[1..]);
      assert [counts[0]][..0] == [];
    }
  }

  lemma RowsLeftIs(daily: seq<nat>, k: nat)
    requires k <= |daily|
    ensures RowsLeft(Left(daily, k)) == TripsOf(daily) - TripsOf(daily[..k])
  {
    assert daily == daily[..k] + daily[k..];
    TripsAppend(daily[..k], daily[k..]);
    RowsLeftAre(daily[k..]);
  }

  /** Each ratio, times its days and the reference, is the trips of the days that are left. */
  lemma RatiosAre(daily: seq<nat>, k: nat, calendar: nat, reference: real)
    requires k < |daily| && calendar > 0 && reference != 0.0
    ensures CalendarRatio(daily, k, calendar, reference) * reference * (calendar as real) ==
            (TripsOf(daily) - TripsOf(daily[..k])) as real
    ensures ObservedRatio(daily, k, reference) * reference * ((|daily| - k) as real) ==
            (TripsOf(daily) - TripsOf(daily[..k])) as real
  {
    hide RowsLeft, TripsOf, TripsPerDay;
    RowsLeftIs(daily, k);
    var left := Left(daily, k);
    assert |left| == |daily| - k;
    RatioIs(RowsLeft(left), calendar, reference);
    RatioIs(RowsLeft(left), |left|, reference);
  }

  lemma RatioIs(rows: nat, days: nat, reference: real)
    requires days > 0 && reference != 0.0
    ensures TripsPerDay(rows, days) / reference * reference * (days as real) == rows as real
  {
    var perDay := TripsPerDay(rows, days);
    assert perDay * (days as real) == rows as real;
    assert perDay / reference * reference == perDay;
  }

  lemma {:induction false} SumAtLeast(counts: seq<nat>, least: nat)
    requires forall i :: 0 <= i < |counts| ==> counts[i] >= least
    ensures RowsLeft(counts) >= |counts| * least
    ensures RowsLeft(counts) == |counts| * least <==> forall i :: 0 <= i < |counts| ==> counts[i] == least
  {
    if counts != [] {
      var rest := counts[1..];
      SumAtLeast(rest, least);
      assert |counts| * least == least + |rest| * least;
      if forall i :: 0 <= i < |rest| ==> rest[i] == least {
        forall i | 1 <= i < |counts| ensures counts[i] == least { assert rest[i - 1] == counts[i]; }
      } else {
        var i :| 0 <= i < |rest| && rest[i] != least;
        assert counts[i + 1] != least;
      }
    }
  }

  /** Fractions compare as their cross products. */
  lemma CompareFractions(a: int, b: int, c: int, d: int)
    requires b > 0 && d > 0
    ensures a as real / b as real < c as real / d as real <==> a * d < c * b
    ensures a as real / b as real == c as real / d as real <==> a * d == c * b
  {
    var x, y := a as real / b as real, c as real / d as real;
    CrossMultiply(x, a as real, b as real, d as real);
    CrossMultiply(y, c as real, d as real, b as real);
    Product(a, d);
    Product(c, b);
    Product(b, d);
    ScaleOrder(x, y, (b * d) as real);
    assert x * (b * d) as real == (a * d) as real;
    assert y * (b * d) as real == (c * b) as real;
  }

  lemma Product(a: int, b: int)
    ensures (a * b) as real == a as real * b as real
  {
  }

  lemma CrossMultiply(x: real, a: real, b: real, d: real)
    requires b > 0.0 && x == a / b
    ensures x * (b * d) == a * d && x * (d * b) == a * d
  {
    assert x * b == a;
    assert x * (b * d) == (x * b) * d;
    assert d * b == b * d;
  }

  lemma ScaleOrder(x: real, y: real, k: real)
    requires k > 0.0
    ensures x < y <==> x * k < y * k
    ensures x == y <==> x * k == y * k
  {
    assert (y - x) * k == y * k - x * k;
    if x < y { assert (y - x) * k > 0.0; }
    if x > y { assert (x - y) * k > 0.0; assert (x - y) * k == x * k - y * k; }
  }

  lemma ReferenceOrder(x: real, y: real, reference: real)
    requires reference > 0.0
    ensures x < y <==> x / reference < y / reference
    ensures x == y <==> x / reference == y / reference
  {
    ScaleOrder(x / reference, y / reference, reference);
    assert x / reference * reference == x;
    assert y / reference * reference == y;
  }

  /** Under the calendar denominator every deletion lowers the ratio. */
  lemma CalendarRatioFalls(daily: seq<nat>, k: nat, calendar: nat, reference: real)
    requires Quietest(daily) && k < |daily| && calendar > 0 && reference > 0.0
    ensures CalendarRatio(daily, k + 1, calendar, reference) < CalendarRatio(daily, k, calendar, reference)
  {
    var rows, less := RowsLeft(Left(daily, k)), RowsLeft(Left(daily, k + 1));
    assert daily[k..][1..] == daily[k + 1..];
    assert rows == daily[k] + less;
    LessRows(less, rows, calendar);
    ReferenceOrder(TripsPerDay(less, calendar), TripsPerDay(rows, calendar), reference);
  }

  lemma LessRows(less: nat, rows: nat, days: nat)
    requires less < rows && days > 0
    ensures TripsPerDay(less, days) < TripsPerDay(rows, days)
  {
    CompareFractions(less, days, rows, days);
    assert less * days < rows * days;
  }

  /** So a month under the bar stays under it, however many days are deleted after that. */
  lemma {:induction false} StaysUnder(daily: seq<nat>, j: nat, k: nat, calendar: nat, reference: real, bar: real)
    requires Quietest(daily) && j <= k <= |daily| && calendar > 0 && reference > 0.0
    requires CalendarRatio(daily, j, calendar, reference) < bar
    ensures CalendarRatio(daily, k, calendar, reference) < bar
    decreases k - j
  {
    hide CalendarRatio, Quietest;
    if j < k {
      CalendarRatioFalls(daily, j, calendar, reference);
      StaysUnder(daily, j + 1, k, calendar, reference, bar);
    }
  }

  /**
   Under the observed-days denominator a deletion never lowers the ratio while a day is left,
   and raises it exactly when the days present before it are not all equally busy.
   */
  lemma ObservedRatioRises(daily: seq<nat>, k: nat, reference: real)
    requires Quietest(daily) && k + 1 < |daily| && reference > 0.0
    ensures ObservedRatio(daily, k, reference) <= ObservedRatio(daily, k + 1, reference)
    ensures ObservedRatio(daily, k, reference) < ObservedRatio(daily, k + 1, reference) <==>
            exists i :: k <= i < |daily| && daily[i] != daily[k]
  {
    var left, least := daily[k + 1..], daily[k];
    var rows, less, m := RowsLeft(Left(daily, k)), RowsLeft(Left(daily, k + 1)), |daily| - k - 1;
    assert daily[k..][1..] == left;
    assert rows == least + less;
    assert forall i :: 0 <= i < |left| ==> left[i] == daily[k + 1 + i];
    SumAtLeast(left, least);
    assert (exists i :: k <= i < |daily| && daily[i] != daily[k]) <==> less != m * least by {
      if i :| k <= i < |daily| && daily[i] != daily[k] {
        assert left[i - (k + 1)] != least;
      } else {
        assert forall i :: 0 <= i < |left| ==> left[i] == least;
      }
    }
    MeanRises(rows, less, least, m);
    ReferenceOrder(TripsPerDay(rows, m + 1), TripsPerDay(less, m), reference);
  }

  lemma MeanRises(rows: nat, less: nat, least: nat, m: nat)
    requires m > 0 && rows == least + less && less >= m * least
    ensures TripsPerDay(rows, m + 1) <= TripsPerDay(less, m)
    ensures TripsPerDay(rows, m + 1) < TripsPerDay(less, m) <==> less != m * least
  {
    CompareFractions(rows, m + 1, less, m);
    assert rows * m == least * m + less * m;
    assert less * (m + 1) == less * m + less;
  }

  /** So once it is silent under that denominator it stays silent as the month collapses. */
  lemma {:induction false} StaysSilent(daily: seq<nat>, j: nat, k: nat, reference: real, bar: real)
    requires Quietest(daily) && j <= k < |daily| && reference > 0.0
    requires ObservedRatio(daily, j, reference) >= bar
    ensures ObservedRatio(daily, k, reference) >= bar
    decreases k - j
  {
    hide ObservedRatio, Quietest;
    if j < k {
      ObservedRatioRises(daily, j, reference);
      StaysSilent(daily, j + 1, k, reference, bar);
    }
  }

  lemma {:induction false} FallsFrom(series: seq<real>, i: nat, j: nat)
    requires Falling(series) && i < j < |series|
    ensures series[j] < series[i]
    decreases j
  {
    if i < j - 1 { FallsFrom(series, i, j - 1); }
  }

  lemma {:induction false} RoseBetween(series: seq<real>, i: nat, j: nat)
    requires i < j < |series| && series[i] < series[j]
    ensures Rose(series)
    decreases j
  {
    if series[j] > series[j - 1] {
    } else {
      RoseBetween(series, i, j - 1);
    }
  }

  ghost predicate RisesSomewhere(series: seq<real>) {
    exists i, j :: 0 <= i < j < |series| && series[i] < series[j]
  }

  /** The judgement of any two series: later is lower and under the bar; and somewhere later is higher. */
  lemma JudgeIff(fixed: seq<real>, observed: seq<real>, bar: real)
    ensures Judge(fixed, observed, bar) == StillNonMonotonic <==>
            !((forall i, j :: 0 <= i < j < |fixed| ==> fixed[j] < fixed[i]) &&
              (forall i :: 0 <= i < |fixed| ==> fixed[i] < bar))
    ensures Judge(fixed, observed, bar) == Confirmed ==> RisesSomewhere(observed)
    ensures Judge(fixed, observed, bar) == NotReproduced ==> !RisesSomewhere(observed)
  {
    if Falling(fixed) {
      forall i, j | 0 <= i < j < |fixed| ensures fixed[j] < fixed[i] { FallsFrom(fixed, i, j); }
    } else {
      var k :| 1 <= k < |fixed| && fixed[k] >= fixed[k - 1];
      assert !(fixed[k] < fixed[k - 1]);
    }
    if Rose(observed) {
      var k :| 1 <= k < |observed| && observed[k] > observed[k - 1];
      assert observed[k - 1] < observed[k];
    } else {
      forall i, j | 0 <= i < j < |observed| ensures observed[i] >= observed[j] {
        if observed[i] < observed[j] { RoseBetween(observed, i, j); }
      }
    }
  }

  /**
   The verdict on any month: the shipped arithmetic always falls, so the run is confirmed
   exactly when the whole month is already under the bar, at least one day is deleted, and
   its quietest day is quieter than its busiest. The printed claim speaks only of the time
   after the first firing, which the shipped arithmetic always meets; the code asks for more.
   */
  lemma VerdictIff(daily: seq<nat>, calendar: nat, reference: real, bar: real, maxZeroed: nat, fixed: seq<real>,
                   observed: seq<real>)
    requires Quietest(daily) && maxZeroed < |daily| && calendar > 0 && reference > 0.0
    requires |fixed| == |observed| == maxZeroed + 1
    requires forall k :: 0 <= k < |fixed| ==> fixed[k] == CalendarRatio(daily, k, calendar, reference)
    requires forall k :: 0 <= k < |observed| ==> observed[k] == ObservedRatio(daily, k, reference)
    ensures Falling(fixed)
    ensures Judge(fixed, observed, bar) == Confirmed <==>
            fixed[0] < bar && maxZeroed >= 1 && daily[0] < daily[|daily| - 1]
    ensures Judge(fixed, observed, bar) == StillNonMonotonic <==> fixed[0] >= bar
  {
    hide CalendarRatio, ObservedRatio;
    forall k | 1 <= k < |fixed| ensures fixed[k] < fixed[k - 1] {
      CalendarRatioFalls(daily, k - 1, calendar, reference);
    }
    if fixed[0] < bar {
      forall k | 0 <= k < |fixed| ensures fixed[k] < bar {
        StaysUnder(daily, 0, k, calendar, reference, bar);
      }
    }
    RoseIff(daily, reference, maxZeroed, observed);
  }

  lemma RoseIff(daily: seq<nat>, reference: real, maxZeroed: nat, observed: seq<real>)
    requires Quietest(daily) && maxZeroed < |daily| && reference > 0.0
    requires |observed| == maxZeroed + 1
    requires forall k :: 0 <= k < |observed| ==> observed[k] == ObservedRatio(daily, k, reference)
    ensures Rose(observed) <==> maxZeroed >= 1 && daily[0] < daily[|daily| - 1]
  {
    hide ObservedRatio;
    if Rose(observed) {
      var k :| 1 <= k < |observed| && observed[k] > observed[k - 1];
      ObservedRatioRises(daily, k - 1, reference);
      var i :| k - 1 <= i < |daily| && daily[i] != daily[k - 1];
      assert daily[0] <= daily[k - 1] <= daily[i] <= daily[|daily| - 1];
    }
    if maxZeroed >= 1 && daily[0] < daily[|daily| - 1] {
      ObservedRatioRises(daily, 0, reference);
      assert daily[|daily| - 1] != daily[0];
      assert observed[1] > observed[1 - 1];
    }
  }
}
