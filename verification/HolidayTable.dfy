/**
 The committed holiday table: `render` writes it, `existing_notes` reads the human notes
 back, and `main` does both. A file is the sequence of its records, without the header.
 */
module HolidayTable {
  import opened Base
  import opened HolidayRules
  import opened Holidays

  datatype Record = Record(date: int, name: string, note: string)

  const OBSERVED_SUFFIX := "(observed)"
  const GENERATED_NOTE := "observed day off \U{2014} the statutory date fell on a weekend"

  predicate EndsWith(s: string, suffix: string) {
    |suffix| <= |s| && s[|s| - |suffix|..] == suffix
  }

  /** What Python's `str.strip` removes. */
  predicate IsSpace(c: char) {
    var k := c as int;
    9 <= k <= 13 || 28 <= k <= 32 || k == 133 || k == 160 || k == 5760 || 8192 <= k <= 8202 ||
    k == 8232 || k == 8233 || k == 8239 || k == 8287 || k == 12288
  }

  /** The code points of it, one by one. */
  lemma SpacesAre(c: char)
    ensures var spaces := {0x9, 0xA, 0xB, 0xC, 0xD, 0x1C, 0x1D, 0x1E, 0x1F, 0x20, 0x85, 0xA0, 0x1680, 0x2000, 0x2001,
                           0x2002, 0x2003, 0x2004, 0x2005, 0x2006, 0x2007, 0x2008, 0x2009, 0x200A, 0x2028, 0x2029,
                           0x202F, 0x205F, 0x3000};
            IsSpace(c) <==> c as int in spaces
  {
  }

  predicate Blank(note: string) {
    forall i :: 0 <= i < |note| ==> IsSpace(note[i])
  }

  function DefaultNote(name: string): string {
    if EndsWith(name, OBSERVED_SUFFIX) then GENERATED_NOTE else ""
  }

  function NoteFor(r: Row, notes: map<int, string>): string {
    if r.date in notes then notes[r.date] else DefaultNote(r.Name())
  }

  function Rendered(rows: seq<Row>, notes: map<int, string>): (file: seq<Record>)
    ensures |file| == |rows|
  {
    seq(|rows|, i requires 0 <= i < |rows| => RecordFor(rows[i], notes))
  }

  function RecordFor(r: Row, notes: map<int, string>): Record {
    Record(r.date, r.Name(), NoteFor(r, notes))
  }

  method Render(rows: seq<Row>, notes: map<int, string>) returns (file: seq<Record>)
    ensures file == Rendered(rows, notes)
  {
    hide NoteFor, Row.Name;
    file := [];
    for i := 0 to |rows|
      invariant file == Rendered(rows, notes)[..i]
    {
      var note := NoteFor(rows[i], notes);
      file := file + [Record(rows[i].date, rows[i].Name(), note)];
    }
  }

  /** The dictionary of non-blank notes by date; a later record of the same date wins. */
  function NotesIn(file: seq<Record>): map<int, string> {
    if file == [] then map[]
    else
      var before := NotesIn(file[..|file| - 1]);
      var last := file[|file| - 1];
      if Blank(last.note) then before else before[last.date := last.note]
  }

  function ExistingNotes(file: Option<seq<Record>>): map<int, string> {
    if file.None? then map[] else NotesIn(file.value)
  }

  function Rewritten(file: Option<seq<Record>>, first: int, last: int): seq<Record> {
    Rendered(Derived(first, last), ExistingNotes(file))
  }

  /** `main` without --stdout: the new content of the table, or the refusal. */
  method Rewrite(file: Option<seq<Record>>, first: int, last: int) returns (r: Result<seq<Record>, Error>)
    ensures r.Err? <==> last < first || first < 1 || 9999 < last
    ensures r.Ok? ==> r.value == Rewritten(file, first, last)
  {
    if last < first {
      return Err(EmptyRange);
    }
    var rows := Derive(first, last);
    match rows
    case Err(e) =>
      return Err(e);
    case Ok(rs) =>
      var text := Render(rs, ExistingNotes(file));
      return Ok(text);
  }

  // -------------------------------------------------------- reading it back ---

  ghost predicate StrictRecords(file: seq<Record>) {
    forall i, j :: 0 <= i < j < |file| ==> file[i].date < file[j].date
  }

  lemma {:induction false} NotesFromRecords(file: seq<Record>, date: int)
    requires date in NotesIn(file)
    ensures exists i :: 0 <= i < |file| && file[i].date == date && file[i].note == NotesIn(file)[date]
    ensures !Blank(NotesIn(file)[date])
  {
    var n := |file| - 1;
    if Blank(file[n].note) || file[n].date != date {
      NotesFromRecords(file[..n], date);
      var i :| 0 <= i < n && file[..n][i].date == date && file[..n][i].note == NotesIn(file[..n])[date];
      assert file[i].date == date;
    }
  }

  /** Of several records of a date the last one with a note counts. */
  lemma {:induction false} LastNoteCounts(file: seq<Record>, i: nat)
    requires i < |file| && !Blank(file[i].note)
    requires forall k :: i < k < |file| && file[k].date == file[i].date ==> Blank(file[k].note)
    ensures file[i].date in NotesIn(file) && NotesIn(file)[file[i].date] == file[i].note
  {
    hide Blank;
    var n := |file| - 1;
    if i < n {
      assert forall k :: i < k < n ==> file[..n][k] == file[k];
      LastNoteCounts(file[..n], i);
    }
  }

  /** With one record a date, a date's note is read back exactly when it is not blank. */
  lemma {:induction false} ReadsBack(file: seq<Record>, i: int)
    requires StrictRecords(file) && 0 <= i < |file|
    ensures file[i].date in NotesIn(file) <==> !Blank(file[i].note)
    ensures !Blank(file[i].note) ==> NotesIn(file)[file[i].date] == file[i].note
  {
    hide Blank;
    var n := |file| - 1;
    if i < n {
      assert file[i].date < file[n].date;
      ReadsBack(file[..n], i);
    } else {
      forall k | 0 <= k < n ensures file[..n][k].date != file[n].date {
        assert file[k].date < file[n].date;
      }
      if Blank(file[n].note) && file[n].date in NotesIn(file[..n]) {
        NotesFromRecords(file[..n], file[n].date);
      }
    }
  }

  lemma RewrittenIsStrict(file: Option<seq<Record>>, first: int, last: int)
    ensures StrictRecords(Rewritten(file, first, last))
  {
    hide Derived, NoteFor, ExistingNotes;
    DerivedInOrder(first, last);
  }

  lemma ListedAt(first: int, last: int, date: int) returns (i: int)
    requires Listed(first, last, date)
    ensures 0 <= i < |Derived(first, last)| && Derived(first, last)[i].date == date
  {
    hide Derived;
    var r :| r in Derived(first, last) && r.date == date;
    i :| 0 <= i < |Derived(first, last)| && Derived(first, last)[i] == r;
  }

  // ------------------------------------------------------------- main laws ---

  /** Every non-blank note survives a rewrite whose range lists its date. */
  lemma NoteSurvives(file: Option<seq<Record>>, first: int, last: int, date: int)
    requires date in ExistingNotes(file) && Listed(first, last, date)
    ensures var after := ExistingNotes(Some(Rewritten(file, first, last)));
            date in after && after[date] == ExistingNotes(file)[date]
  {
    hide Derived, Blank, Listed;
    var i := ListedAt(first, last, date);
    RewrittenIsStrict(file, first, last);
    NotesFromRecords(file.value, date);
    ReadsBack(Rewritten(file, first, last), i);
  }

  datatype Range = Range(first: int, last: int)

  function AfterAll(file: Option<seq<Record>>, ranges: seq<Range>): Option<seq<Record>>
    decreases |ranges|
  {
    hide Rewritten;
    if ranges == [] then file
    else AfterAll(Some(Rewritten(file, ranges[0].first, ranges[0].last)), ranges[1..])
  }

  /** ... and any number of them, however the range moves in between. */
  lemma {:induction false} NoteSurvivesAll(file: Option<seq<Record>>, ranges: seq<Range>, date: int)
    requires date in ExistingNotes(file)
    requires forall k :: 0 <= k < |ranges| ==> Listed(ranges[k].first, ranges[k].last, date)
    ensures var after := ExistingNotes(AfterAll(file, ranges));
            date in after && after[date] == ExistingNotes(file)[date]
    decreases |ranges|
  {
    hide Rewritten, Listed, ExistingNotes;
    if ranges != [] {
      assert Listed(ranges[0].first, ranges[0].last, date);
      NoteSurvives(file, ranges[0].first, ranges[0].last, date);
      NoteSurvivesAll(Some(Rewritten(file, ranges[0].first, ranges[0].last)), ranges[1..], date);
    }
  }

  /** Rewriting the same range again changes nothing, whatever the first file was. */
  lemma RewriteIsFixedPoint(file: Option<seq<Record>>, first: int, last: int)
    ensures var once := Rewritten(file, first, last);
            Rewritten(Some(once), first, last) == once
  {
    hide Derived, Blank, ExistingNotes, EndsWith;
    var rows := Derived(first, last);
    var once := Rewritten(file, first, last);
    RewrittenIsStrict(file, first, last);
    forall i | 0 <= i < |rows| ensures NoteFor(rows[i], ExistingNotes(Some(once))) == once[i].note {
      SecondNote(file, first, last, i);
    }
  }

  lemma SecondNote(file: Option<seq<Record>>, first: int, last: int, i: int)
    requires 0 <= i < |Derived(first, last)|
    requires StrictRecords(Rewritten(file, first, last))
    ensures var once := Rewritten(file, first, last);
            NoteFor(Derived(first, last)[i], ExistingNotes(Some(once))) == once[i].note
  {
    hide Derived, EndsWith, Blank;
    var r := Derived(first, last)[i];
    ReadsBack(Rewritten(file, first, last), i);
    if r.date in ExistingNotes(file) {
      NotesFromRecords(file.value, r.date);
    }
    GeneratedNoteIsNotBlank();
  }

  lemma GeneratedNoteIsNotBlank()
    ensures !Blank(GENERATED_NOTE)
  {
    var c := GENERATED_NOTE[|GENERATED_NOTE| - 1];
    assert c == 'd' && !IsSpace(c);
  }

  lemma ObservedEnds(r: Row)
    requires r.observed
    ensures EndsWith(r.Name(), OBSERVED_SUFFIX)
  {
    hide Text;
    assert OBSERVED == " " + OBSERVED_SUFFIX;
    assert r.Name() == (Text(r.holiday) + " ") + OBSERVED_SUFFIX;
  }

  lemma StatutoryEnds(r: Row)
    requires !r.observed
    ensures !EndsWith(r.Name(), OBSERVED_SUFFIX)
  {
    assert r.Name() == Text(r.holiday);
    assert |r.Name()| > 0 && r.Name()[|r.Name()| - 1] != ')';
    hide Text, EndsWith;
    SuffixEnds(r.Name());
  }

  /** No statutory name ends like an observed one. */
  lemma OnlyObservedGetsANote(r: Row)
    ensures DefaultNote(r.Name()) == if r.observed then GENERATED_NOTE else ""
  {
    hide EndsWith, Row.Name;
    if r.observed { ObservedEnds(r); } else { StatutoryEnds(r); }
  }

  lemma SuffixEnds(name: string)
    ensures EndsWith(name, OBSERVED_SUFFIX) ==> |name| > 0 && name[|name| - 1] == ')'
  {
    if EndsWith(name, OBSERVED_SUFFIX) {
      assert name[|name| - 1] == name[|name| - |OBSERVED_SUFFIX|..][|OBSERVED_SUFFIX| - 1];
    }
  }

  /**
   A row that the file held keeps its note exactly when the note is not blank, or is the one
   that the row would be given anyway.
   */
  lemma HeldNoteIsKeptIff(file: seq<Record>, first: int, last: int, i: int, k: int)
    requires StrictRecords(file) && 0 <= k < |file|
    requires 0 <= i < |Derived(first, last)| && Derived(first, last)[i].date == file[k].date
    ensures Rewritten(Some(file), first, last)[i].note == file[k].note <==>
            !Blank(file[k].note) || file[k].note == DefaultNote(Derived(first, last)[i].Name())
  {
    hide Derived, Blank, EndsWith;
    ReadsBack(file, k);
  }

  /**
   The generated note comes back whenever the file has no non-blank note for the day. The
   source promises it only for rows the file has never held; a row that was held with a
   blank note gets it too.
   */
  lemma BlankNoteIsRegenerated(file: seq<Record>, first: int, last: int, i: int, k: int)
    requires StrictRecords(file) && 0 <= k < |file| && Blank(file[k].note)
    requires 0 <= i < |Derived(first, last)| && Derived(first, last)[i].date == file[k].date
    ensures Rewritten(Some(file), first, last)[i].note ==
            if Derived(first, last)[i].observed then GENERATED_NOTE else ""
  {
    hide Derived, Blank, EndsWith;
    ReadsBack(file, k);
    OnlyObservedGetsANote(Derived(first, last)[i]);
  }
}
