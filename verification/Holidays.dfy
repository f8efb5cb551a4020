/**
 `derive` of scripts/derive_us_federal_holidays.py over any range of years: what rows it
 yields, in what order, and how ranges fit together.
 */
module Holidays {
  import opened Base
  import opened Calendar
  import opened HolidayRules

  datatype Error = YearOutOfRange | EmptyRange

  // ---------------------------------------------------------------- derive ---

  /** The rows of one holiday in the order the loop appends them. */
  function RowsOf(h: Row): seq<Row> {
    match ObservedDate(h.date)
    case None => [h]
    case Some(shifted) => [h, Row(shifted, h.holiday, true)]
  }

  function RowsOfAll(hs: seq<Row>): seq<Row> {
    if hs == [] then [] else RowsOfAll(hs[..|hs| - 1]) + RowsOf(hs[|hs| - 1])
  }

  /** Every statutory holiday of the years first..last. */
  function Bases(first: int, last: int): seq<Row>
    decreases last - first
  {
    if last < first then [] else Bases(first, last - 1) + StatutoryHolidays(last)
  }

  function Derived(first: int, last: int): seq<Row> {
    Sorted(RowsOfAll(Bases(first, last)))
  }

  /** The inner loop of `derive`: each holiday of a year, then its observed day if it has one. */
  method AppendYear(rows: seq<Row>, days: seq<Row>) returns (all: seq<Row>)
    ensures all == rows + RowsOfAll(days)
  {
    hide ObservedDate;
    all := rows;
    for i := 0 to |days|
      invariant all == rows + RowsOfAll(days[..i])
    {
      var shifted := ObservedDate(days[i].date);
      all := all + [days[i]];
      if shifted.Some? {
        all := all + [Row(shifted.value, days[i].holiday, true)];
      }
      assert days[..i + 1][..i] == days[..i];
    }
    assert days[..|days|] == days;
  }

  /** `derive`: dates exist for the years 1 to 9999 only. */
  method Derive(first: int, last: int) returns (r: Result<seq<Row>, Error>)
    ensures r.Err? <==> first <= last && (first < 1 || 9999 < last)
    ensures r.Ok? ==> r.value == Derived(first, last)
  {
    hide StatutoryHolidays, RowsOf, Sorted;
    var rows: seq<Row> := [];
    var year := first;
    while year <= last
      invariant first <= year
      invariant year <= last + 1 || year == first
      invariant first < year ==> 1 <= first && year <= 10000
      invariant rows == RowsOfAll(Bases(first, year - 1))
    {
      if year < 1 || 9999 < year {
        return Err(YearOutOfRange);
      }
      var days := StatutoryHolidays(year);
      rows := AppendYear(rows, days);
      RowsOfAllAppend(Bases(first, year - 1), days);
      year := year + 1;
    }
    assert Bases(first, year - 1) == Bases(first, last);
    return Ok(Sorted(rows));
  }

  lemma {:induction false} RowsOfAllAppend(xs: seq<Row>, ys: seq<Row>)
    ensures RowsOfAll(xs + ys) == RowsOfAll(xs) + RowsOfAll(ys)
  {
    if ys == [] {
      assert xs + ys == xs;
    } else {
      assert (xs + ys)[..|xs + ys| - 1] == xs + ys[..|ys| - 1];
      RowsOfAllAppend(xs, ys[..|ys| - 1]);
    }
  }

  // ----------------------------------------------------- the year in order ---

  /** The holidays of a year in date order, Juneteenth in its place from 2021. */
  function YearInOrder(y: int): seq<Row> {
    [ Row(Ordinal(y, 1, 1), NewYear, false),
      Row(NthWeekday(y, 1, MONDAY, 3), MartinLutherKing, false),
      Row(NthWeekday(y, 2, MONDAY, 3), Washington, false),
      Row(LastWeekday(y, 5, MONDAY), Memorial, false)
    ] + (if y >= JUNETEENTH_FROM then [JuneteenthRow(y)] else []) +
    [ Row(Ordinal(y, 7, 4), Independence, false),
      Row(NthWeekday(y, 9, MONDAY, 1), Labor, false),
      Row(NthWeekday(y, 10, MONDAY, 2), Columbus, false),
      Row(Ordinal(y, 11, 11), Veterans, false),
      Row(NthWeekday(y, 11, THURSDAY, 4), Thanksgiving, false),
      Row(Ordinal(y, 12, 25), Christmas, false)
    ]
  }

  /** The dates stand at least three days apart. */
  ghost predicate Spread(hs: seq<Row>) {
    forall i, j :: 0 <= i < j < |hs| ==> hs[i].date + 3 <= hs[j].date
  }

  ghost predicate Within(hs: seq<Row>, from: int, to: int) {
    forall i :: 0 <= i < |hs| ==> from <= hs[i].date <= to
  }

  lemma NthRange(y: int, m: int, w: int, n: int)
    requires 1 <= m <= 12
    ensures var first := DaysBeforeYear(y) + DaysBeforeMonth(y, m) + 1;
            first + 7 * (n - 1) <= NthWeekday(y, m, w, n) <= first + 7 * n - 1
  {
  }

  lemma YearInOrderSpreads(y: int)
    ensures Spread(YearInOrder(y))
    ensures Within(YearInOrder(y), Ordinal(y, 1, 1), Ordinal(y, 12, 25))
    ensures YearInOrder(y)[0] == Row(Ordinal(y, 1, 1), NewYear, false)
  {
    hide NthWeekday, LastWeekday, DaysBeforeYear, DaysBeforeMonth;
    MonthOffsets(y);
    NthRange(y, 1, MONDAY, 3);
    NthRange(y, 2, MONDAY, 3);
    NthRange(y, 9, MONDAY, 1);
    NthRange(y, 10, MONDAY, 2);
    NthRange(y, 11, THURSDAY, 4);
    MemorialRange(y);
  }

  lemma MemorialRange(y: int)
    ensures var may := DaysBeforeYear(y) + DaysBeforeMonth(y, 5);
            may + 25 <= LastWeekday(y, 5, MONDAY) <= may + 31
  {
    MonthOffsets(y);
  }

  lemma SpreadIsStrict(hs: seq<Row>)
    requires Spread(hs)
    ensures StrictDates(hs)
  {
  }

  lemma StatutoryIsYearInOrder(y: int)
    ensures StatutoryHolidays(y) == YearInOrder(y)
  {
    YearInOrderSpreads(y);
    SpreadIsStrict(YearInOrder(y));
    SameRows(y);
    SortedIs(StatutoryDays(y), YearInOrder(y));
  }

  lemma SameRows(y: int)
    ensures multiset(StatutoryDays(y)) == multiset(YearInOrder(y))
  {
    hide NthWeekday, LastWeekday, Ordinal;
    var early := YearInOrder(y)[..4];
    var late := YearInOrder(y)[|YearInOrder(y)| - 6..];
    var june := if y >= JUNETEENTH_FROM then [JuneteenthRow(y)] else [];
    assert YearInOrder(y) == early + june + late;
    assert StatutoryDays(y) == early + late + june;
  }

  // ----------------------------------------------------- the range in order ---

  lemma {:induction false} BasesSpread(first: int, last: int)
    ensures Spread(Bases(first, last))
    ensures Within(Bases(first, last), Ordinal(first, 1, 1), Ordinal(last, 12, 25))
    decreases last - first
  {
    hide StatutoryHolidays, YearInOrder, Ordinal;
    if first <= last {
      BasesSpread(first, last - 1);
      StatutoryIsYearInOrder(last);
      YearInOrderSpreads(last);
      YearGap(last);
      YearsIncrease(first, last);
      if Bases(first, last - 1) != [] {
        assert Ordinal(last - 1, 12, 25) + 3 <= Ordinal(last, 1, 1);
      }
    }
  }

  lemma YearGap(y: int)
    ensures Ordinal(y - 1, 12, 25) + 7 == Ordinal(y, 1, 1)
    ensures Ordinal(y, 12, 31) + 1 == Ordinal(y + 1, 1, 1)
    ensures Ordinal(y, 12, 25) + 6 == Ordinal(y, 12, 31)
    ensures Ordinal(y, 1, 1) < Ordinal(y, 12, 25)
  {
    YearLength(y - 1);
    YearLength(y);
    YearEnd(y - 1);
    YearEnd(y);
  }

  lemma {:induction false} YearsIncrease(a: int, b: int)
    requires a <= b
    ensures Ordinal(a, 1, 1) <= Ordinal(b, 1, 1)
    ensures Ordinal(a, 12, 25) <= Ordinal(b, 12, 25)
    ensures a < b ==> Ordinal(a, 12, 31) < Ordinal(b, 1, 1)
    decreases b - a
  {
    if a < b {
      YearsIncrease(a, b - 1);
      YearGap(b - 1);
      YearGap(b);
    }
  }

  /** A holiday's rows in date order: an observed Friday comes first. */
  function OrderedRows(h: Row): seq<Row> {
    match ObservedDate(h.date)
    case None => [h]
    case Some(shifted) =>
      var o := Row(shifted, h.holiday, true);
      if shifted < h.date then [o, h] else [h, o]
  }

  function OrderedRowsOfAll(hs: seq<Row>): seq<Row> {
    if hs == [] then [] else OrderedRowsOfAll(hs[..|hs| - 1]) + OrderedRows(hs[|hs| - 1])
  }

  lemma {:induction false} SameRowsOfAll(hs: seq<Row>)
    ensures multiset(RowsOfAll(hs)) == multiset(OrderedRowsOfAll(hs))
  {
    if hs != [] {
      SameRowsOfAll(hs[..|hs| - 1]);
    }
  }

  lemma {:induction false} OrderedIsStrict(hs: seq<Row>)
    requires Spread(hs)
    ensures StrictDates(OrderedRowsOfAll(hs))
    ensures hs != [] ==> forall r :: r in OrderedRowsOfAll(hs) ==> r.date <= hs[|hs| - 1].date + 1
  {
    if hs != [] {
      var init := hs[..|hs| - 1];
      OrderedIsStrict(init);
      var before, these := OrderedRowsOfAll(init), OrderedRows(hs[|hs| - 1]);
      assert OrderedRowsOfAll(hs) == before + these;
      assert forall k :: 0 <= k < |these| ==> hs[|hs| - 1].date - 1 <= these[k].date <= hs[|hs| - 1].date + 1;
      forall k | 0 <= k < |before| ensures before[k].date + 1 <= hs[|hs| - 1].date - 1 {
        assert before[k] in before;
        assert init[|init| - 1].date + 3 <= hs[|hs| - 1].date;
      }
    }
  }

  /** `derive` lists each holiday with its observed day in date order; the sort does no more. */
  lemma DerivedInOrder(first: int, last: int)
    ensures Derived(first, last) == OrderedRowsOfAll(Bases(first, last))
    ensures StrictDates(Derived(first, last))
  {
    var hs := Bases(first, last);
    BasesSpread(first, last);
    SameRowsOfAll(hs);
    OrderedIsStrict(hs);
    SortedIs(RowsOfAll(hs), OrderedRowsOfAll(hs));
  }

  lemma {:induction false} BasesSplit(a: int, b: int, c: int)
    requires a <= b + 1 <= c + 1
    ensures Bases(a, c) == Bases(a, b) + Bases(b + 1, c)
    decreases c - b
  {
    hide StatutoryHolidays;
    if b < c {
      BasesSplit(a, b, c - 1);
    }
  }

  lemma {:induction false} OrderedAppend(xs: seq<Row>, ys: seq<Row>)
    ensures OrderedRowsOfAll(xs + ys) == OrderedRowsOfAll(xs) + OrderedRowsOfAll(ys)
  {
    if ys == [] {
      assert xs + ys == xs;
    } else {
      assert (xs + ys)[..|xs + ys| - 1] == xs + ys[..|ys| - 1];
      OrderedAppend(xs, ys[..|ys| - 1]);
    }
  }

  /**
   Two ranges that meet put their tables end to end: no re-sort is needed, although an
   observed New Year's Day falls in the year before its own.
   */
  lemma DerivedConcatenates(a: int, b: int, c: int)
    requires a <= b + 1 <= c + 1
    ensures Derived(a, c) == Derived(a, b) + Derived(b + 1, c)
    ensures Sorted(Derived(a, b) + Derived(b + 1, c)) == Derived(a, c)
  {
    DerivedInOrder(a, b);
    DerivedInOrder(b + 1, c);
    DerivedInOrder(a, c);
    BasesSplit(a, b, c);
    OrderedAppend(Bases(a, b), Bases(b + 1, c));
    SortedIs(Derived(a, c), Derived(a, c));
  }

  // ------------------------------------------------- which dates are listed ---

  ghost predicate Listed(first: int, last: int, day: int) {
    exists r :: r in Derived(first, last) && r.date == day
  }

  ghost predicate IsStatutory(y: int, h: Row) {
    h in YearInOrder(y)
  }

  ghost predicate Explains(y: int, h: Row, day: int) {
    IsStatutory(y, h) && (day == h.date || ObservedDate(h.date) == Some(day))
  }

  lemma {:induction false} BasesMembers(first: int, last: int, h: Row)
    ensures h in Bases(first, last) <==> exists y :: first <= y <= last && IsStatutory(y, h)
    decreases last - first
  {
    hide StatutoryHolidays, YearInOrder;
    if first <= last {
      BasesMembers(first, last - 1, h);
      StatutoryIsYearInOrder(last);
      if h in StatutoryHolidays(last) {
        assert IsStatutory(last, h);
      }
    }
  }

  lemma {:induction false} OrderedMembers(hs: seq<Row>, day: int)
    ensures (exists r :: r in OrderedRowsOfAll(hs) && r.date == day)
       <==> (exists h :: h in hs && (day == h.date || ObservedDate(h.date) == Some(day)))
  {
    if hs != [] {
      var init, h := hs[..|hs| - 1], hs[|hs| - 1];
      OrderedMembers(init, day);
      assert hs == init + [h];
      if day == h.date || ObservedDate(h.date) == Some(day) {
        var k :| 0 <= k < |OrderedRows(h)| && OrderedRows(h)[k].date == day;
        assert OrderedRows(h)[k] in OrderedRowsOfAll(hs);
      }
    }
  }

  lemma ListedByBase(first: int, last: int, day: int)
    ensures Listed(first, last, day)
       <==> exists h :: h in Bases(first, last) && (day == h.date || ObservedDate(h.date) == Some(day))
  {
    hide ObservedDate, Bases, Derived;
    DerivedInOrder(first, last);
    OrderedMembers(Bases(first, last), day);
  }

  /** A date is listed exactly when a holiday of one of the range's years explains it. */
  lemma ListedIff(first: int, last: int, day: int)
    ensures Listed(first, last, day) <==> exists y, h :: first <= y <= last && Explains(y, h, day)
  {
    hide ObservedDate, Bases, Listed, IsStatutory;
    ListedByBase(first, last, day);
    var hs := Bases(first, last);
    forall h ensures h in Bases(first, last) <==> exists y :: first <= y <= last && IsStatutory(y, h) {
      BasesMembers(first, last, h);
    }
    if h :| h in Bases(first, last) && (day == h.date || ObservedDate(h.date) == Some(day)) {
      var y :| first <= y <= last && IsStatutory(y, h);
      assert Explains(y, h, day);
    }
  }

  /** What one year's holidays can explain: days of that year, or 31 December before it. */
  lemma ExplainsWithin(y: int, h: Row, day: int)
    requires Explains(y, h, day)
    ensures Ordinal(y, 1, 1) - 1 <= day < Ordinal(y, 12, 31)
    ensures day < Ordinal(y, 1, 1) ==> Weekday(Ordinal(y, 1, 1)) == SATURDAY
  {
    YearInOrderSpreads(y);
    YearGap(y);
    hide YearInOrder, Ordinal;
    if day < Ordinal(y, 1, 1) {
      assert h.date == Ordinal(y, 1, 1);
    }
  }

  lemma SaturdayNewYear(y: int)
    requires Weekday(Ordinal(y, 1, 1)) == SATURDAY
    ensures Explains(y, Row(Ordinal(y, 1, 1), NewYear, false), Ordinal(y, 1, 1) - 1)
  {
    YearInOrderSpreads(y);
    hide Ordinal;
    assert YearInOrder(y)[0] in YearInOrder(y);
  }

  /**
   A date of the years first..last that some longer range lists is listed by first..last
   too, unless it is 31 December of the last year and the next New Year's Day is a
   Saturday; then it is missing.
   */
  lemma OnlyLastDayCanBeMissing(first: int, last: int, longFirst: int, longLast: int, day: int)
    requires longFirst <= first <= last < longLast
    requires Ordinal(first, 1, 1) <= day <= Ordinal(last, 12, 31)
    requires Listed(longFirst, longLast, day)
    ensures !Listed(first, last, day) <==>
              day == Ordinal(last, 12, 31) && Weekday(Ordinal(last + 1, 1, 1)) == SATURDAY
  {
    hide Ordinal, Weekday, Explains, Listed;
    ListedIff(longFirst, longLast, day);
    ListedIff(first, last, day);
    YearGap(last);
    var y, h :| longFirst <= y <= longLast && Explains(y, h, day);
    ExplainsWithin(y, h, day);
    if y < first {
      YearsIncrease(y, first);
    } else if last + 1 < y {
      YearsIncrease(last + 1, y);
      YearGap(last + 1);
      YearsIncrease(last + 1, y - 1);
      YearGap(y - 1);
    }
    if Listed(first, last, day) {
      var z, g :| first <= z <= last && Explains(z, g, day);
      ExplainsWithin(z, g, day);
      YearsIncrease(z, last);
      YearGap(z);
    }
  }

  /** Outside its own years a range lists one date at most: 31 December before a Saturday. */
  lemma ListedOutside(first: int, last: int, day: int)
    requires first <= last
    requires day < Ordinal(first, 1, 1) || Ordinal(last, 12, 31) < day
    ensures Listed(first, last, day) <==>
              day == Ordinal(first, 1, 1) - 1 && Weekday(Ordinal(first, 1, 1)) == SATURDAY
  {
    hide Ordinal, Weekday, Explains, Listed;
    ListedIff(first, last, day);
    if Listed(first, last, day) {
      var y, h :| first <= y <= last && Explains(y, h, day);
      ExplainsWithin(y, h, day);
      YearsIncrease(first, y);
      YearsIncrease(y, last);
      YearGap(y);
      YearGap(last);
      if first < y {
        YearsIncrease(first, y - 1);
        YearGap(y - 1);
      }
    }
    if day == Ordinal(first, 1, 1) - 1 && Weekday(Ordinal(first, 1, 1)) == SATURDAY {
      SaturdayNewYear(first);
      ListedIff(first, last, day);
    }
  }

  // --------------------------------------------------------- observed days ---

  /** An observed day is a weekday beside its holiday, and is itself a holiday of no year. */
  lemma ObservedIsNoHoliday(y: int, h: Row, z: int, g: Row)
    requires IsStatutory(y, h) && ObservedDate(h.date).Some? && IsStatutory(z, g)
    ensures var o := ObservedDate(h.date).value;
            o != g.date && Weekday(o) < SATURDAY && (o == h.date - 1 || o == h.date + 1)
  {
    hide StatutoryHolidays, YearInOrder, Ordinal, ObservedDate;
    ObservedIsAdjacentWeekday(h.date);
    var lo, hi := if y < z then y else z, if y < z then z else y;
    BasesMembers(lo, hi, h);
    BasesMembers(lo, hi, g);
    BasesSpread(lo, hi);
    var hs := Bases(lo, hi);
    var i :| 0 <= i < |hs| && hs[i] == h;
    var j :| 0 <= j < |hs| && hs[j] == g;
  }

  /** Only the five holidays with a fixed date ever have an observed day. */
  lemma OnlyFixedDatesShift(y: int, h: Row)
    requires IsStatutory(y, h) && ObservedDate(h.date).Some?
    ensures h.date in {Ordinal(y, 1, 1), Ordinal(y, 6, 19), Ordinal(y, 7, 4),
                       Ordinal(y, 11, 11), Ordinal(y, 12, 25)}
  {
    NthWeekdayIsNth(y, 1, MONDAY, 3);
    NthWeekdayIsNth(y, 2, MONDAY, 3);
    NthWeekdayIsNth(y, 9, MONDAY, 1);
    NthWeekdayIsNth(y, 10, MONDAY, 2);
    NthWeekdayIsNth(y, 11, THURSDAY, 4);
    LastWeekdayIsLast(y, 5, MONDAY);
    hide Ordinal, NthWeekday, LastWeekday, Weekday, CountWeekday;
  }

  // ------------------------------------------------------- the known year ---

  /** The ten hand-written rows of 2019. */
  function Known2019(): seq<Row> {
    [ Row(Ordinal(2019, 1, 1), NewYear, false),
      Row(Ordinal(2019, 1, 21), MartinLutherKing, false),
      Row(Ordinal(2019, 2, 18), Washington, false),
      Row(Ordinal(2019, 5, 27), Memorial, false),
      Row(Ordinal(2019, 7, 4), Independence, false),
      Row(Ordinal(2019, 9, 2), Labor, false),
      Row(Ordinal(2019, 10, 14), Columbus, false),
      Row(Ordinal(2019, 11, 11), Veterans, false),
      Row(Ordinal(2019, 11, 28), Thanksgiving, false),
      Row(Ordinal(2019, 12, 25), Christmas, false)
    ]
  }

  lemma Firsts2019()
    ensures Ordinal(2019, 1, 1) == 737060 && Ordinal(2019, 2, 1) == 737091
    ensures Ordinal(2019, 6, 1) == 737211 && Ordinal(2019, 9, 1) == 737303
    ensures Ordinal(2019, 10, 1) == 737333 && Ordinal(2019, 11, 1) == 737364
  {
    hide DaysBeforeYear, DaysBeforeMonth;
    ClosedForm(2019);
    MonthOffsets(2019);
  }

  lemma DayOfMonth(y: int, m: int, d: int)
    requires 1 <= m <= 12
    ensures Ordinal(y, m, d) == Ordinal(y, m, 1) + d - 1
  {
  }

  lemma Movable2019()
    ensures NthWeekday(2019, 1, MONDAY, 3) == Ordinal(2019, 1, 21)
    ensures NthWeekday(2019, 2, MONDAY, 3) == Ordinal(2019, 2, 18)
    ensures LastWeekday(2019, 5, MONDAY) == Ordinal(2019, 6, 1) - 5
    ensures NthWeekday(2019, 9, MONDAY, 1) == Ordinal(2019, 9, 2)
    ensures NthWeekday(2019, 10, MONDAY, 2) == Ordinal(2019, 10, 14)
    ensures NthWeekday(2019, 11, THURSDAY, 4) == Ordinal(2019, 11, 28)
  {
    Firsts2019();
    DayOfMonth(2019, 1, 21);
    DayOfMonth(2019, 2, 18);
    DayOfMonth(2019, 9, 2);
    DayOfMonth(2019, 10, 14);
    DayOfMonth(2019, 11, 28);
    hide Ordinal;
  }

  lemma Fixed2019()
    ensures Ordinal(2019, 5, 27) == Ordinal(2019, 6, 1) - 5
    ensures forall i :: 0 <= i < 10 ==> Weekday(Known2019()[i].date) < SATURDAY
  {
    WinterAndSpring2019();
    SummerAndAutumn2019();
    hide *;
  }

  lemma WinterAndSpring2019()
    ensures Ordinal(2019, 5, 27) == Ordinal(2019, 6, 1) - 5
    ensures forall i :: 0 <= i < 5 ==> Weekday(Known2019()[i].date) < SATURDAY
  {
    hide DaysBeforeYear, DaysBeforeMonth;
    ClosedForm(2019);
    MonthOffsets(2019);
  }

  lemma SummerAndAutumn2019()
    ensures forall i :: 5 <= i < 10 ==> Weekday(Known2019()[i].date) < SATURDAY
  {
    hide DaysBeforeYear, DaysBeforeMonth;
    ClosedForm(2019);
    MonthOffsets(2019);
  }

  lemma YearInOrder2019()
    ensures YearInOrder(2019) == Known2019()
  {
    Movable2019();
    Fixed2019();
    hide Ordinal, NthWeekday, LastWeekday;
  }

  lemma {:induction false} WeekdaysAreAlone(hs: seq<Row>)
    requires forall i :: 0 <= i < |hs| ==> Weekday(hs[i].date) < SATURDAY
    ensures OrderedRowsOfAll(hs) == hs
  {
    if hs != [] {
      WeekdaysAreAlone(hs[..|hs| - 1]);
      assert hs == hs[..|hs| - 1] + [hs[|hs| - 1]];
    }
  }

  /** Deriving 2019 alone gives the ten rows a person wrote, Juneteenth not among them. */
  lemma Reproduces2019()
    ensures Derived(2019, 2019) == Known2019()
  {
    hide YearInOrder, Ordinal, StatutoryHolidays, OrderedRows, Derived;
    DerivedInOrder(2019, 2019);
    StatutoryIsYearInOrder(2019);
    YearInOrder2019();
    Fixed2019();
    assert Bases(2019, 2018) == [];
    assert Bases(2019, 2019) == Known2019();
    WeekdaysAreAlone(Known2019());
  }
}
