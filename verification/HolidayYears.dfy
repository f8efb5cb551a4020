/**
 The derived table in figures: from which year on it has Juneteenth, and a whole year with
 weekend holidays, written out as dates, names and notes.
 */
module HolidayYears {
  import opened Base
  import opened Calendar
  import opened HolidayRules
  import opened Holidays
  import opened HolidayTable

  // ------------------------------------------------------------- Juneteenth ---

  lemma {:induction false} PlainRows(hs: seq<Row>, r: Row)
    requires !r.observed && forall h :: h in hs ==> !h.observed
    ensures r in OrderedRowsOfAll(hs) <==> r in hs
  {
    hide ObservedDate;
    if hs != [] {
      var init, h := hs[..|hs| - 1], hs[|hs| - 1];
      assert hs == init + [h] && h in hs;
      PlainRows(init, r);
      assert r in OrderedRowsOfAll(hs) <==> r in OrderedRowsOfAll(init) || r in OrderedRows(h);
      OneHoliday(h, r);
    }
  }

  lemma OneHoliday(h: Row, r: Row)
    requires !h.observed && !r.observed
    ensures r in OrderedRows(h) <==> r == h
  {
    hide ObservedDate;
  }

  lemma YearIsDerived(y: int)
    ensures Derived(y, y) == OrderedRowsOfAll(YearInOrder(y))
  {
    hide YearInOrder, StatutoryHolidays, OrderedRowsOfAll, Derived;
    DerivedInOrder(y, y);
    StatutoryIsYearInOrder(y);
    assert Bases(y, y - 1) == [];
    assert Bases(y, y) == [] + YearInOrder(y) == YearInOrder(y);
  }

  lemma JuneDates(y: int, h: Row)
    requires h in YearInOrder(y)
    ensures h.date == Ordinal(y, 6, 19) <==> h == JuneteenthRow(y)
    ensures !h.observed
  {
    hide NthWeekday, LastWeekday, DaysBeforeYear, DaysBeforeMonth;
    MonthOffsets(y);
    NthRange(y, 1, MONDAY, 3);
    NthRange(y, 2, MONDAY, 3);
    NthRange(y, 9, MONDAY, 1);
    NthRange(y, 10, MONDAY, 2);
    NthRange(y, 11, THURSDAY, 4);
    MemorialRange(y);
  }

  lemma JuneteenthIsThere(y: int)
    ensures JuneteenthRow(y) in YearInOrder(y) <==> y >= 2021
  {
    hide NthWeekday, LastWeekday, Ordinal;
  }

  /** The table of a year has a row for 19 June itself if and only if the year is 2021 or later. */
  lemma JuneteenthIff(y: int)
    ensures (exists r :: r in Derived(y, y) && r.date == Ordinal(y, 6, 19) && !r.observed) <==> y >= 2021
  {
    hide YearInOrder, OrderedRowsOfAll, Derived, Ordinal;
    YearIsDerived(y);
    JuneteenthIsThere(y);
    forall h | h in YearInOrder(y) ensures !h.observed && (h.date == Ordinal(y, 6, 19) <==> h == JuneteenthRow(y)) {
      JuneDates(y, h);
    }
    forall r: Row | !r.observed ensures r in Derived(y, y) <==> r in YearInOrder(y) {
      PlainRows(YearInOrder(y), r);
    }
    assert JuneteenthRow(y).date == Ordinal(y, 6, 19) && !JuneteenthRow(y).observed;
  }

  // ----------------------------------------------------------------- 2021 ---

  /** The day numbers of 2021: 1 January is a Friday. */
  lemma Days2021(m: int, d: int)
    requires 1 <= m <= 12
    ensures Ordinal(2021, m, d) == 737790 + DaysBeforeMonth(2021, m) + d
  {
    hide DaysBeforeYear, DaysBeforeMonth;
    ClosedForm(2021);
  }

  lemma Fixed2021()
    ensures ObservedDate(Ordinal(2021, 1, 1)) == None
    ensures ObservedDate(Ordinal(2021, 6, 19)) == Some(Ordinal(2021, 6, 18))
    ensures ObservedDate(Ordinal(2021, 7, 4)) == Some(Ordinal(2021, 7, 5))
    ensures ObservedDate(Ordinal(2021, 11, 11)) == None
    ensures ObservedDate(Ordinal(2021, 12, 25)) == Some(Ordinal(2021, 12, 24))
  {
    hide Ordinal, DaysBeforeMonth;
    MonthOffsets(2021);
    Days2021(1, 1);
    Days2021(6, 19);
    Days2021(6, 18);
    Days2021(7, 4);
    Days2021(7, 5);
    Days2021(11, 11);
    Days2021(12, 25);
    Days2021(12, 24);
  }

  lemma Winter2021()
    ensures NthWeekday(2021, 1, MONDAY, 3) == Ordinal(2021, 1, 18)
    ensures NthWeekday(2021, 2, MONDAY, 3) == Ordinal(2021, 2, 15)
    ensures LastWeekday(2021, 5, MONDAY) == Ordinal(2021, 5, 31)
    ensures ObservedDate(Ordinal(2021, 1, 18)) == ObservedDate(Ordinal(2021, 2, 15)) == None
    ensures ObservedDate(Ordinal(2021, 5, 31)) == None
  {
    hide Ordinal, DaysBeforeMonth;
    MonthOffsets(2021);
    Days2021(1, 1);
    Days2021(1, 18);
    Days2021(2, 1);
    Days2021(2, 15);
    Days2021(5, 31);
    Days2021(6, 1);
  }

  lemma Autumn2021()
    ensures NthWeekday(2021, 9, MONDAY, 1) == Ordinal(2021, 9, 6)
    ensures NthWeekday(2021, 10, MONDAY, 2) == Ordinal(2021, 10, 11)
    ensures NthWeekday(2021, 11, THURSDAY, 4) == Ordinal(2021, 11, 25)
    ensures ObservedDate(Ordinal(2021, 9, 6)) == ObservedDate(Ordinal(2021, 10, 11)) == None
    ensures ObservedDate(Ordinal(2021, 11, 25)) == None
  {
    hide Ordinal, DaysBeforeMonth;
    MonthOffsets(2021);
    Days2021(9, 1);
    Days2021(9, 6);
    Days2021(10, 1);
    Days2021(10, 11);
    Days2021(11, 1);
    Days2021(11, 25);
  }

  function ToJune2021(): seq<Row> {
    [ Row(Ordinal(2021, 1, 1), NewYear, false),
      Row(Ordinal(2021, 1, 18), MartinLutherKing, false),
      Row(Ordinal(2021, 2, 15), Washington, false),
      Row(Ordinal(2021, 5, 31), Memorial, false),
      Row(Ordinal(2021, 6, 18), Juneteenth, true),
      Row(Ordinal(2021, 6, 19), Juneteenth, false)
    ]
  }

  function FromJuly2021(): seq<Row> {
    [ Row(Ordinal(2021, 7, 4), Independence, false),
      Row(Ordinal(2021, 7, 5), Independence, true),
      Row(Ordinal(2021, 9, 6), Labor, false),
      Row(Ordinal(2021, 10, 11), Columbus, false),
      Row(Ordinal(2021, 11, 11), Veterans, false),
      Row(Ordinal(2021, 11, 25), Thanksgiving, false),
      Row(Ordinal(2021, 12, 24), Christmas, true),
      Row(Ordinal(2021, 12, 25), Christmas, false)
    ]
  }

  lemma OneOrdered(h: Row)
    ensures OrderedRowsOfAll([h]) == OrderedRows(h)
  {
    assert [h][..0] == [];
  }

  lemma {:induction false} AloneIs(hs: seq<Row>)
    requires forall i :: 0 <= i < |hs| ==> ObservedDate(hs[i].date) == None
    ensures OrderedRowsOfAll(hs) == hs
  {
    if hs != [] {
      AloneIs(hs[..|hs| - 1]);
      assert hs == hs[..|hs| - 1] + [hs[|hs| - 1]];
    }
  }

  lemma Observed2021()
    ensures OrderedRows(JuneteenthRow(2021)) == ToJune2021()[4..]
    ensures OrderedRows(Row(Ordinal(2021, 7, 4), Independence, false)) == FromJuly2021()[..2]
    ensures OrderedRows(Row(Ordinal(2021, 12, 25), Christmas, false)) == FromJuly2021()[6..]
  {
    hide ObservedDate;
    Fixed2021();
  }

  lemma YearInOrder2021()
    ensures YearInOrder(2021) ==
            ToJune2021()[..4] + [JuneteenthRow(2021)] + [Row(Ordinal(2021, 7, 4), Independence, false)] +
            FromJuly2021()[2..6] + [Row(Ordinal(2021, 12, 25), Christmas, false)]
  {
    Winter2021();
    Autumn2021();
    hide Ordinal, NthWeekday, LastWeekday, ObservedDate;
  }

  lemma Rows2021()
    ensures Derived(2021, 2021) == ToJune2021() + FromJuly2021()
  {
    hide Ordinal, NthWeekday, LastWeekday, ObservedDate, Derived, YearInOrder, OrderedRows, OrderedRowsOfAll;
    var a, b := ToJune2021()[..4], FromJuly2021()[2..6];
    var june, july := JuneteenthRow(2021), Row(Ordinal(2021, 7, 4), Independence, false);
    var christmas := Row(Ordinal(2021, 12, 25), Christmas, false);
    YearIsDerived(2021);
    YearInOrder2021();
    Fixed2021();
    Winter2021();
    Autumn2021();
    OrderedAppend(a + [june] + [july] + b, [christmas]);
    OrderedAppend(a + [june] + [july], b);
    OrderedAppend(a + [june], [july]);
    OrderedAppend(a, [june]);
    AloneIs(a);
    AloneIs(b);
    OneOrdered(june);
    OneOrdered(july);
    OneOrdered(christmas);
    Observed2021();
    assert a + ToJune2021()[4..] == ToJune2021();
    assert FromJuly2021()[..2] + b + FromJuly2021()[6..] == FromJuly2021();
  }

  /** The note of an observed day, letter by letter. */
  const NOTE := "observed day off \U{2014} the statutory date fell on a weekend"

  function Table2021(): seq<Record> {
    [ Record(Ordinal(2021, 1, 1), "New Year's Day", ""),
      Record(Ordinal(2021, 1, 18), "Birthday of Martin Luther King Jr.", ""),
      Record(Ordinal(2021, 2, 15), "Washington's Birthday", ""),
      Record(Ordinal(2021, 5, 31), "Memorial Day", ""),
      Record(Ordinal(2021, 6, 18), "Juneteenth National Independence Day (observed)", NOTE),
      Record(Ordinal(2021, 6, 19), "Juneteenth National Independence Day", ""),
      Record(Ordinal(2021, 7, 4), "Independence Day", ""),
      Record(Ordinal(2021, 7, 5), "Independence Day (observed)", NOTE),
      Record(Ordinal(2021, 9, 6), "Labor Day", ""),
      Record(Ordinal(2021, 10, 11), "Columbus Day", ""),
      Record(Ordinal(2021, 11, 11), "Veterans Day", ""),
      Record(Ordinal(2021, 11, 25), "Thanksgiving Day", ""),
      Record(Ordinal(2021, 12, 24), "Christmas Day (observed)", NOTE),
      Record(Ordinal(2021, 12, 25), "Christmas Day", "")
    ]
  }

  lemma RecordIs(r: Row, name: string)
    requires name == Text(r.holiday) + if r.observed then " (observed)" else ""
    ensures RecordFor(r, map[]) == Record(r.date, name, if r.observed then NOTE else "")
  {
    hide Text, DefaultNote;
    OnlyObservedGetsANote(r);
  }

  /** A row is written under its date and its holiday's name, an observed one marked as such. */
  lemma NamesAreWritten(file: Option<seq<Record>>, first: int, last: int, i: nat)
    requires i < |Derived(first, last)|
    ensures var r, record := Derived(first, last)[i], Rewritten(file, first, last)[i];
            record.date == r.date && record.name == Text(r.holiday) + if r.observed then " (observed)" else ""
  {
    hide Derived, ExistingNotes, NoteFor, Text;
  }

  ghost predicate Written(record: Record, r: Row) {
    && record.date == r.date && record.name == Text(r.holiday) + (if r.observed then " (observed)" else "")
    && record.note == if r.observed then NOTE else ""
  }

  lemma NamesToJune()
    ensures |Table2021()| == 14 && |ToJune2021()| == 6
    ensures forall i :: 0 <= i < 6 ==> Written(Table2021()[i], ToJune2021()[i])
  {
    hide Ordinal;
    assert "Juneteenth National Independence Day" + " (observed)" == "Juneteenth National Independence Day (observed)";
  }

  lemma NamesFromJuly()
    ensures |Table2021()| == 14 && |FromJuly2021()| == 8
    ensures forall i :: 6 <= i < 14 ==> Written(Table2021()[i], FromJuly2021()[i - 6])
  {
    hide Ordinal;
    assert "Independence Day" + " (observed)" == "Independence Day (observed)";
    assert "Christmas Day" + " (observed)" == "Christmas Day (observed)";
  }

  /** The first table of 2021, record by record. */
  lemma Writes2021()
    ensures Rewritten(None, 2021, 2021) == Table2021()
  {
    hide Ordinal, Derived, RecordFor, Text;
    Rows2021();
    NamesToJune();
    NamesFromJuly();
    var rows, table := ToJune2021() + FromJuly2021(), Table2021();
    hide ToJune2021, FromJuly2021, Table2021;
    forall i | 0 <= i < 14 ensures RecordFor(rows[i], map[]) == table[i] {
      assert Written(table[i], rows[i]);
      RecordIs(rows[i], table[i].name);
    }
  }
}
