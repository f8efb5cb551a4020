/**
 The rules of scripts/derive_us_federal_holidays.py: weekday rules, the statutory list
 of a year, the observed day of 5 U.S.C. 6103(b), and Python's `sorted` over the rows.
 Dates are day numbers (see Calendar).
 */
module HolidayRules {
  import opened Base
  import opened Calendar

  const MONDAY := 0
  const THURSDAY := 3
  const SATURDAY := 5
  const SUNDAY := 6

  const JUNETEENTH_FROM := 2021

  datatype Holiday =
    NewYear | MartinLutherKing | Washington | Memorial | Juneteenth | Independence | Labor
    | Columbus | Veterans | Thanksgiving | Christmas

  const OBSERVED := " (observed)"

  function Text(h: Holiday): string {
    match h
    case NewYear => "New Year's Day"
    case MartinLutherKing => "Birthday of Martin Luther King Jr."
    case Washington => "Washington's Birthday"
    case Memorial => "Memorial Day"
    case Juneteenth => "Juneteenth National Independence Day"
    case Independence => "Independence Day"
    case Labor => "Labor Day"
    case Columbus => "Columbus Day"
    case Veterans => "Veterans Day"
    case Thanksgiving => "Thanksgiving Day"
    case Christmas => "Christmas Day"
  }

  /** A table row: the holiday itself, or its observed day off. */
  datatype Row = Row(date: int, holiday: Holiday, observed: bool) {
    function Name(): string {
      Text(holiday) + if observed then OBSERVED else []
    }
  }

  // --------------------------------------------------------- weekday rules ---

  function NthWeekday(y: int, m: int, w: int, n: int): int
    requires 1 <= m <= 12
  {
    var first := Ordinal(y, m, 1);
    first + (w - Weekday(first)) % 7 + 7 * (n - 1)
  }

  function LastWeekday(y: int, m: int, w: int): int
    requires 1 <= m <= 12
  {
    var following := if m == 12 then Ordinal(y + 1, 1, 1) else Ordinal(y, m + 1, 1);
    var last := following - 1;
    last - (Weekday(last) - w) % 7
  }

  /** How many days in [from, upTo) fall on weekday w. */
  function CountWeekday(from: int, upTo: int, w: int): nat
    decreases upTo - from
  {
    if upTo <= from then 0
    else CountWeekday(from, upTo - 1, w) + if Weekday(upTo - 1) == w then 1 else 0
  }

  lemma {:induction false} CountsNone(from: int, upTo: int, w: int)
    requires forall d :: from <= d < upTo ==> Weekday(d) != w
    ensures CountWeekday(from, upTo, w) == 0
    decreases upTo - from
  {
    if from < upTo {
      assert Weekday(upTo - 1) != w;
      CountsNone(from, upTo - 1, w);
    }
  }

  lemma {:induction false} CountSplits(from: int, mid: int, upTo: int, w: int)
    requires from <= mid <= upTo
    ensures CountWeekday(from, upTo, w) == CountWeekday(from, mid, w) + CountWeekday(mid, upTo, w)
    decreases upTo - mid
  {
    if mid < upTo {
      CountSplits(from, mid, upTo - 1, w);
    }
  }

  lemma WeekdayShift(d: int, k: int)
    ensures Weekday(d + k) == (Weekday(d) + k) % 7
  {
  }

  /** The first weekday w on or after a date, and the days around it. */
  lemma NextOn(from: int, w: int) returns (d: int)
    requires 0 <= w < 7
    ensures d == from + (w - Weekday(from)) % 7
    ensures from <= d < from + 7 && Weekday(d) == w
    ensures forall x :: from <= x < from + 7 && x != d ==> Weekday(x) != w
  {
    hide Weekday;
    d := from + (w - Weekday(from)) % 7;
    WeekdayShift(from, d - from);
    forall x | from <= x < from + 7 && x != d ensures Weekday(x) != w {
      WeekdayShift(from, x - from);
    }
  }

  /** Any seven days in a row hold each weekday once. */
  lemma WeekHoldsOne(from: int, w: int)
    requires 0 <= w < 7
    ensures CountWeekday(from, from + 7, w) == 1
  {
    hide Weekday;
    var d := NextOn(from, w);
    CountSplits(from, d, from + 7, w);
    CountSplits(d, d + 1, from + 7, w);
    CountsNone(from, d, w);
    CountsNone(d + 1, from + 7, w);
    assert CountWeekday(d, d, w) == 0;
  }

  lemma {:induction false} CountWeeks(from: int, n: nat, w: int)
    requires 0 <= w < 7
    ensures CountWeekday(from, from + 7 * n, w) == n
  {
    if n > 0 {
      CountWeeks(from, n - 1, w);
      CountSplits(from, from + 7 * (n - 1), from + 7 * n, w);
      WeekHoldsOne(from + 7 * (n - 1), w);
    }
  }

  /** `_nth_weekday` lands in its month, on its weekday, with n - 1 such days before it. */
  lemma NthWeekdayIsNth(y: int, m: int, w: int, n: int)
    requires 1 <= m <= 12 && 0 <= w < 7 && 1 <= n <= 4
    ensures var d := NthWeekday(y, m, w, n);
            && Ordinal(y, m, 1) <= d < Ordinal(y, m, 1) + DaysInMonth(y, m)
            && Weekday(d) == w
            && CountWeekday(Ordinal(y, m, 1), d, w) == n - 1
  {
    hide Ordinal, DaysInMonth, Weekday;
    var first := Ordinal(y, m, 1);
    var d := NextOn(first + 7 * (n - 1), w);
    WeekdayShift(first, 7 * (n - 1));
    assert d == NthWeekday(y, m, w, n);
    CountSplits(first, first + 7 * (n - 1), d, w);
    CountWeeks(first, n - 1, w);
    CountsNone(first + 7 * (n - 1), d, w);
  }

  /** `_last_weekday` lands in its month, on its weekday, with no such day after it. */
  lemma LastWeekdayIsLast(y: int, m: int, w: int)
    requires 1 <= m <= 12 && 0 <= w < 7
    ensures var d := LastWeekday(y, m, w);
            var end := Ordinal(y, m, 1) + DaysInMonth(y, m);
            && Ordinal(y, m, 1) <= d < end
            && Weekday(d) == w
            && CountWeekday(d + 1, end, w) == 0
            && CountWeekday(Ordinal(y, m, 1), end, w) == CountWeekday(Ordinal(y, m, 1), d, w) + 1
  {
    var first := Ordinal(y, m, 1);
    var end := first + DaysInMonth(y, m);
    var d := LastWeekday(y, m, w);
    MonthEnds(y, m);
    assert d == end - 1 - (Weekday(end - 1) - w) % 7;
    LastBefore(end, w);
    CountSplits(first, d, end, w);
    CountSplits(d, d + 1, end, w);
    assert CountWeekday(d, d + 1, w) == 1 by { assert CountWeekday(d, d, w) == 0; }
  }

  lemma MonthEnds(y: int, m: int)
    requires 1 <= m <= 12
    ensures Ordinal(y, m, 1) + DaysInMonth(y, m) ==
            if m == 12 then Ordinal(y + 1, 1, 1) else Ordinal(y, m + 1, 1)
  {
    YearLength(y);
    YearEnd(y);
  }

  lemma LastBefore(end: int, w: int)
    requires 0 <= w < 7
    ensures var d := end - 1 - (Weekday(end - 1) - w) % 7;
            Weekday(d) == w && end - 7 <= d < end && CountWeekday(d + 1, end, w) == 0
  {
    hide Weekday;
    var d := end - 1 - (Weekday(end - 1) - w) % 7;
    WeekdayShift(end - 1, d - (end - 1));
    var e := NextOn(end - 7, w);
    assert d == e;
    CountsNone(d + 1, end, w);
  }

  // -------------------------------------------------------- sorted on rows ---

  /** Python's order on strings. */
  predicate LexLeq(a: string, b: string) {
    a == [] || (b != [] && (a[0] < b[0] || (a[0] == b[0] && LexLeq(a[1..], b[1..]))))
  }

  /** Python's order on (date, name) tuples. */
  predicate RowLeq(a: Row, b: Row) {
    a.date < b.date || (a.date == b.date && LexLeq(a.Name(), b.Name()))
  }

  lemma LexTotal(a: string, b: string)
    ensures LexLeq(a, b) || LexLeq(b, a)
  {
  }

  lemma {:induction false} LexTransitive(a: string, b: string, c: string)
    requires LexLeq(a, b) && LexLeq(b, c)
    ensures LexLeq(a, c)
  {
    if a != [] && a[0] == b[0] == c[0] {
      LexTransitive(a[1..], b[1..], c[1..]);
    }
  }

  lemma RowTransitive(a: Row, b: Row, c: Row)
    requires RowLeq(a, b) && RowLeq(b, c)
    ensures RowLeq(a, c)
  {
    if a.date == b.date == c.date {
      LexTransitive(a.Name(), b.Name(), c.Name());
    }
  }

  ghost predicate Ascending(rows: seq<Row>) {
    forall i, j :: 0 <= i < j < |rows| ==> RowLeq(rows[i], rows[j])
  }

  ghost predicate StrictDates(rows: seq<Row>) {
    forall i, j :: 0 <= i < j < |rows| ==> rows[i].date < rows[j].date
  }

  function Insert(r: Row, rows: seq<Row>): seq<Row> {
    if rows == [] then [r]
    else if RowLeq(r, rows[0]) then [r] + rows
    else [rows[0]] + Insert(r, rows[1..])
  }

  /** Python's `sorted` on rows. */
  function Sorted(rows: seq<Row>): seq<Row> {
    if rows == [] then [] else Insert(rows[0], Sorted(rows[1..]))
  }

  lemma {:induction false} InsertKeepsRows(r: Row, rows: seq<Row>)
    ensures multiset(Insert(r, rows)) == multiset(rows) + multiset{r}
  {
    hide RowLeq;
    if rows != [] {
      assert rows == [rows[0]] + rows[1..];
      InsertKeepsRows(r, rows[1..]);
    }
  }

  /** Sorting neither loses nor repeats a row. */
  lemma {:induction false} SortedKeepsRows(rows: seq<Row>)
    ensures multiset(Sorted(rows)) == multiset(rows)
  {
    if rows != [] {
      assert rows == [rows[0]] + rows[1..];
      SortedKeepsRows(rows[1..]);
      InsertKeepsRows(rows[0], Sorted(rows[1..]));
    }
  }

  ghost predicate NoneBefore(low: Row, rows: seq<Row>) {
    forall j :: 0 <= j < |rows| ==> RowLeq(low, rows[j])
  }

  lemma {:induction false} InsertNoneBefore(low: Row, r: Row, rows: seq<Row>)
    requires RowLeq(low, r) && NoneBefore(low, rows)
    ensures NoneBefore(low, Insert(r, rows))
  {
    hide RowLeq;
    if rows != [] { InsertNoneBefore(low, r, rows[1..]); }
  }

  lemma FirstOfAscending(low: Row, rows: seq<Row>)
    requires NoneBefore(low, rows) && Ascending(rows)
    ensures Ascending([low] + rows)
  {
    hide RowLeq;
  }

  lemma RestOfAscending(rows: seq<Row>)
    requires rows != [] && Ascending(rows)
    ensures NoneBefore(rows[0], rows[1..]) && Ascending(rows[1..])
  {
    hide RowLeq;
  }

  lemma BeforeAll(r: Row, rows: seq<Row>)
    requires rows != [] && Ascending(rows) && RowLeq(r, rows[0])
    ensures NoneBefore(r, rows)
  {
    forall j | 0 <= j < |rows| ensures RowLeq(r, rows[j]) {
      if j > 0 { RowTransitive(r, rows[0], rows[j]); }
    }
  }

  lemma RowTotal(a: Row, b: Row)
    ensures RowLeq(a, b) || RowLeq(b, a)
  {
    LexTotal(a.Name(), b.Name());
  }

  lemma {:induction false} InsertKeepsOrder(r: Row, rows: seq<Row>)
    requires Ascending(rows)
    ensures Ascending(Insert(r, rows))
  {
    hide RowLeq, Ascending, NoneBefore;
    if rows == [] {
      OneIsAscending(r);
    } else if RowLeq(r, rows[0]) {
      BeforeAll(r, rows);
      FirstOfAscending(r, rows);
    } else {
      RowTotal(r, rows[0]);
      RestOfAscending(rows);
      InsertKeepsOrder(r, rows[1..]);
      InsertNoneBefore(rows[0], r, rows[1..]);
      FirstOfAscending(rows[0], Insert(r, rows[1..]));
    }
  }

  lemma OneIsAscending(r: Row)
    ensures Ascending([r])
  {
  }

  lemma {:induction false} SortedIsAscending(rows: seq<Row>)
    ensures Ascending(Sorted(rows))
  {
    if rows != [] {
      SortedIsAscending(rows[1..]);
      InsertKeepsOrder(rows[0], Sorted(rows[1..]));
    }
  }

  lemma Tails(rows: seq<Row>)
    requires rows != []
    ensures multiset(rows[1..]) == multiset(rows) - multiset{rows[0]}
    ensures StrictDates(rows) ==> StrictDates(rows[1..])
    ensures Ascending(rows) ==> Ascending(rows[1..])
  {
    hide RowLeq;
    assert rows == [rows[0]] + rows[1..];
  }

  /** A strictly dated list is the only ascending arrangement of its rows. */
  lemma {:induction false} StrictIsUnique(a: seq<Row>, b: seq<Row>)
    requires StrictDates(a) && Ascending(b) && multiset(a) == multiset(b)
    ensures a == b
  {
    if a == [] {
      assert |multiset(b)| == |b|;
    } else {
      SameHead(a, b);
      Tails(a);
      Tails(b);
      hide StrictDates, Ascending;
      StrictIsUnique(a[1..], b[1..]);
      assert a == [a[0]] + a[1..] && b == [b[0]] + b[1..];
    }
  }

  lemma SameHead(a: seq<Row>, b: seq<Row>)
    requires a != [] && StrictDates(a) && Ascending(b) && multiset(a) == multiset(b)
    ensures b != [] && b[0] == a[0]
  {
    assert a[0] in multiset(a);
    assert a[0] in b;
    assert b[0] in multiset(b);
    assert b[0] in a;
    var i :| 0 <= i < |b| && b[i] == a[0];
    var j :| 0 <= j < |a| && a[j] == b[0];
  }

  lemma SortedIs(rows: seq<Row>, ordered: seq<Row>)
    requires StrictDates(ordered) && multiset(rows) == multiset(ordered)
    ensures Sorted(rows) == ordered
  {
    SortedIsAscending(rows);
    SortedKeepsRows(rows);
    StrictIsUnique(ordered, Sorted(rows));
  }

  // ------------------------------------------------------ the year's rules ---

  /** The list as the source appends it, Juneteenth last. */
  function StatutoryDays(y: int): seq<Row> {
    [ Row(Ordinal(y, 1, 1), NewYear, false),
      Row(NthWeekday(y, 1, MONDAY, 3), MartinLutherKing, false),
      Row(NthWeekday(y, 2, MONDAY, 3), Washington, false),
      Row(LastWeekday(y, 5, MONDAY), Memorial, false),
      Row(Ordinal(y, 7, 4), Independence, false),
      Row(NthWeekday(y, 9, MONDAY, 1), Labor, false),
      Row(NthWeekday(y, 10, MONDAY, 2), Columbus, false),
      Row(Ordinal(y, 11, 11), Veterans, false),
      Row(NthWeekday(y, 11, THURSDAY, 4), Thanksgiving, false),
      Row(Ordinal(y, 12, 25), Christmas, false)
    ] + if y >= JUNETEENTH_FROM then [JuneteenthRow(y)] else []
  }

  function JuneteenthRow(y: int): Row {
    Row(Ordinal(y, 6, 19), Juneteenth, false)
  }

  function StatutoryHolidays(y: int): seq<Row> {
    Sorted(StatutoryDays(y))
  }

  function ObservedDate(day: int): Option<int> {
    if Weekday(day) == SATURDAY then Some(day - 1)
    else if Weekday(day) == SUNDAY then Some(day + 1)
    else None
  }

  /** The observed day is the weekday next to a weekend date; a weekday has none. */
  lemma ObservedIsAdjacentWeekday(day: int)
    ensures ObservedDate(day).None? <==> Weekday(day) < SATURDAY
    ensures ObservedDate(day).Some? ==>
              var o := ObservedDate(day).value;
              Weekday(o) < SATURDAY && (o == day - 1 || o == day + 1)
  {
  }
}
