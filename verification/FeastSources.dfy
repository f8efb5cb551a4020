/**
 `build_window_aggregates` of scripts/feast_sources.py: which windows are published, each
 stamped with the first instant it is complete.
 */
module FeastSources {
  import opened Base
  import opened Calendar
  import opened Aggregates
  import opened FeatureStore

  datatype Error = NoWindows

  /** A row of the pickup-hour view; the speed may be missing where the rate is not. */
  datatype PuHour = PuHour(speed: Option<real>, rate: real)

  datatype Sources = Sources(od: seq<SourceRow<real>>, puHour: seq<SourceRow<PuHour>>, windows: nat)

  /** `_window_stamp`: 00:00:00 on the first day of the month after the window's last. */
  function WindowStamp(months: seq<int>): int
    requires months != []
  {
    StartOf(months[|months| - 1] + 1)
  }

  function OdBlock(table: Tables): Block<real>
    requires table.months != []
  {
    Block(table.odMedian, WindowStamp(table.months), table.months)
  }

  function PuHourAt(table: Tables, k: nat): Option<PuHour>
    requires k < |table.puHourRate| == |table.puHourSpeed|
  {
    match table.puHourRate[k]
    case None => None
    case Some(rate) => Some(PuHour(table.puHourSpeed[k], rate))
  }

  function PuHourBlock(table: Tables): Block<PuHour>
    requires table.months != [] && Dense(table)
  {
    Block(seq(PU_HOUR_SLOTS, k requires 0 <= k < PU_HOUR_SLOTS => PuHourAt(table, k)),
          WindowStamp(table.months), table.months)
  }

  ghost predicate Publishable(tables: seq<Tables>) {
    forall i :: 0 <= i < |tables| ==> tables[i].months != [] && Dense(tables[i])
  }

  function OdBlocks(tables: seq<Tables>): (blocks: seq<Block<real>>)
    requires Publishable(tables)
    ensures |blocks| == |tables|
    ensures forall i :: 0 <= i < |tables| ==> blocks[i] == OdBlock(tables[i])
  {
    if tables == [] then [] else OdBlocks(tables[..|tables| - 1]) + [OdBlock(tables[|tables| - 1])]
  }

  function PuHourBlocks(tables: seq<Tables>): (blocks: seq<Block<PuHour>>)
    requires Publishable(tables)
    ensures |blocks| == |tables|
    ensures forall i :: 0 <= i < |tables| ==> blocks[i] == PuHourBlock(tables[i])
  {
    if tables == [] then [] else PuHourBlocks(tables[..|tables| - 1]) + [PuHourBlock(tables[|tables| - 1])]
  }

  /** The tables that get published: those with months, the first of each window. */
  function Kept(tables: seq<Tables>): (kept: seq<Tables>)
    ensures forall i :: 0 <= i < |kept| ==> kept[i] in tables && kept[i].months != []
  {
    if tables == [] then []
    else
      var before, last := Kept(tables[..|tables| - 1]), tables[|tables| - 1];
      if last.months == [] || exists i :: 0 <= i < |before| && before[i].months == last.months
      then before else before + [last]
  }

  ghost predicate AllDense(tables: seq<Tables>) {
    forall i :: 0 <= i < |tables| ==> Dense(tables[i])
  }

  lemma KeptIsPublishable(tables: seq<Tables>)
    requires AllDense(tables)
    ensures Publishable(Kept(tables))
  {
  }

  ghost predicate SeenAre(seen: set<seq<int>>, kept: seq<Tables>) {
    && (forall m :: m in seen <==> exists j :: 0 <= j < |kept| && kept[j].months == m)
    && |seen| == |kept|
  }

  lemma SeenSnoc(seen: set<seq<int>>, kept: seq<Tables>, table: Tables)
    requires SeenAre(seen, kept) && table.months !in seen
    ensures SeenAre(seen + {table.months}, kept + [table])
  {
    var next := kept + [table];
    assert next[|kept|] == table;
    assert forall j :: 0 <= j < |kept| ==> next[j] == kept[j];
  }

  lemma KeptStep(tables: seq<Tables>, i: nat, seen: set<seq<int>>)
    requires i < |tables| && SeenAre(seen, Kept(tables[..i]))
    ensures Kept(tables[..i + 1]) ==
            if tables[i].months == [] || tables[i].months in seen then Kept(tables[..i])
            else Kept(tables[..i]) + [tables[i]]
  {
    assert tables[..i + 1][..i] == tables[..i];
  }

  /** The publishing loop. Nothing to concatenate is an error, as in pandas. */
  method PublishTables(tables: seq<Tables>) returns (r: Result<Sources, Error>)
    requires AllDense(tables)
    ensures Publishable(Kept(tables))
    ensures r.Err? <==> Kept(tables) == []
    ensures r.Ok? ==> r.value == Sources(Publish(OdBlocks(Kept(tables)), ZONE_SLOTS),
                                         Publish(PuHourBlocks(Kept(tables)), HOURS), |Kept(tables)|)
  {
    hide Dense, OdBlock, PuHourBlock, LongRows, Kept, SeenAre, OdBlocks, PuHourBlocks, Publish;
    KeptIsPublishable(tables);
    var od: seq<SourceRow<real>>, pu: seq<SourceRow<PuHour>> := [], [];
    var seen: set<seq<int>> := {};
    NothingKept(tables);
    for i := 0 to |tables|
      invariant Publishable(Kept(tables[..i])) && SeenAre(seen, Kept(tables[..i]))
      invariant od == Publish(OdBlocks(Kept(tables[..i])), ZONE_SLOTS)
      invariant pu == Publish(PuHourBlocks(Kept(tables[..i])), HOURS)
    {
      var table := tables[i];
      KeptStep(tables, i, seen);
      if table.months != [] && table.months !in seen {
        KeptSnoc(Kept(tables[..i]), table);
        SeenSnoc(seen, Kept(tables[..i]), table);
        seen := seen + {table.months};
        od := od + LongRows(OdBlock(table).dense, ZONE_SLOTS, OdBlock(table).stamp, OdBlock(table).months);
        pu := pu + LongRows(PuHourBlock(table).dense, HOURS, PuHourBlock(table).stamp, PuHourBlock(table).months);
      }
    }
    assert tables[..|tables|] == tables;
    SeenCount(seen, Kept(tables));
    if seen == {} {
      return Err(NoWindows);
    }
    return Ok(Sources(od, pu, |seen|));
  }

  lemma NothingKept(tables: seq<Tables>)
    ensures Kept(tables[..0]) == [] && SeenAre({}, [])
    ensures Publishable([]) && OdBlocks([]) == [] && PuHourBlocks([]) == []
    ensures Publish<real>([], ZONE_SLOTS) == [] && Publish<PuHour>([], HOURS) == []
  {
  }

  lemma SeenCount(seen: set<seq<int>>, kept: seq<Tables>)
    requires SeenAre(seen, kept)
    ensures |seen| == |kept| && (seen == {} <==> kept == [])
  {
  }

  lemma KeptSnoc(kept: seq<Tables>, table: Tables)
    requires Publishable(kept) && table.months != [] && Dense(table)
    ensures Publishable(kept + [table])
    ensures OdBlocks(kept + [table]) == OdBlocks(kept) + [OdBlock(table)]
    ensures PuHourBlocks(kept + [table]) == PuHourBlocks(kept) + [PuHourBlock(table)]
    ensures Publish(OdBlocks(kept + [table]), ZONE_SLOTS) == Publish(OdBlocks(kept), ZONE_SLOTS) +
            LongRows(OdBlock(table).dense, ZONE_SLOTS, OdBlock(table).stamp, OdBlock(table).months)
    ensures Publish(PuHourBlocks(kept + [table]), HOURS) == Publish(PuHourBlocks(kept), HOURS) +
            LongRows(PuHourBlock(table).dense, HOURS, PuHourBlock(table).stamp, PuHourBlock(table).months)
  {
    hide OdBlock, PuHourBlock, LongRows;
    assert (kept + [table])[..|kept|] == kept;
    assert (OdBlocks(kept) + [OdBlock(table)])[..|kept|] == OdBlocks(kept);
    assert (PuHourBlocks(kept) + [PuHourBlock(table)])[..|kept|] == PuHourBlocks(kept);
  }

  // ------------------------------------------------- the windows of a fit ---

  /** The windows of months 1..k, for k from 1 to all of them. */
  function Windows(frame: Frame): (ws: seq<Tables>)
    ensures |ws| == |FittedMonths(frame)|
  {
    var ms := FittedMonths(frame);
    seq(|ms|, i requires 0 <= i < |ms| => Window(frame, ms[..i + 1]))
  }

  lemma {:induction false} RowsOfKeepsOne(frame: Frame, months: seq<int>, trip: Trip)
    requires trip in frame && MonthOf(trip.pickup) in months
    ensures RowsOf(frame, months) != []
  {
    RowsOfMembers(frame, months, trip);
  }

  /** A non-empty prefix of the fitted months has rows, so its table carries its months. */
  lemma WindowHasMonths(frame: Frame, i: nat)
    requires i < |FittedMonths(frame)|
    ensures Window(frame, FittedMonths(frame)[..i + 1]).months == FittedMonths(frame)[..i + 1]
    ensures Window(frame, FittedMonths(frame)[..i + 1]) ==
            FitWindow(RowsOf(frame, FittedMonths(frame)[..i + 1]), FittedMonths(frame)[..i + 1])
  {
    hide MonthOf, FitWindow, EmptyTables;
    FittedMonthsAre(frame);
    var ms := FittedMonths(frame);
    assert ms[i] in ms;
    var j :| 0 <= j < |frame| && MonthOf(frame[j].pickup) == ms[i];
    assert ms[..i + 1][i] == ms[i];
    RowsOfKeepsOne(frame, ms[..i + 1], frame[j]);
    assert FitWindow(RowsOf(frame, ms[..i + 1]), ms[..i + 1]).months == ms[..i + 1] by {
      FitWindowMonths(RowsOf(frame, ms[..i + 1]), ms[..i + 1]);
    }
  }

  lemma FitWindowMonths(w: Frame, months: seq<int>)
    ensures FitWindow(w, months).months == months
  {
  }

  lemma WindowsArePublishable(frame: Frame)
    ensures Publishable(Windows(frame))
  {
    hide Window, FittedMonths, Dense;
    forall i | 0 <= i < |Windows(frame)| ensures Windows(frame)[i].months != [] && Dense(Windows(frame)[i]) {
      WindowHasMonths(frame, i);
      WindowIsDense(frame, FittedMonths(frame)[..i + 1]);
    }
  }

  /** The tables in the order the loop takes them: each fitted month's, then the full one. */
  function TablesServed(f: Fitted): (tables: seq<Tables>)
    requires forall i :: 0 <= i < |f.months| ==> f.months[i] in f.byMonth
    ensures |tables| == |f.months| + 1
  {
    seq(|f.months|, i requires 0 <= i < |f.months| && f.months[i] in f.byMonth => f.byMonth[f.months[i]]) + [f.full]
  }

  /**
   What the loop keeps of a fit: every non-empty prefix of the months exactly once. Only
   the first month's empty table is skipped; no window is ever dropped as seen.
   */
  lemma KeptAreWindows(f: Fitted, frame: Frame)
    requires IsFit(f, frame)
    ensures Kept(TablesServed(f)) == Windows(frame)
  {
    hide Window, FittedMonths, Kept;
    var ms := f.months;
    var tables := TablesServed(f);
    assert ms[..|ms|] == ms;
    if ms == [] {
      NoRowsOfNoMonths(frame);
      KeptPrefix(f, frame, 0);
      assert tables[..1] == tables;
    } else {
      KeptPrefix(f, frame, |ms|);
      assert tables[..|ms| + 1] == tables;
    }
    assert Windows(frame)[..|ms|] == Windows(frame);
  }

  lemma ServedAt(f: Fitted, frame: Frame, n: nat)
    requires IsFit(f, frame) && n <= |f.months|
    ensures TablesServed(f)[n] == Window(frame, f.months[..n])
  {
    hide Window, FittedMonths;
    assert f.months[..|f.months|] == f.months;
    if n < |f.months| {
      var m := f.months[n];
      assert m in f.months;
      assert m in f.byMonth;
    }
  }

  lemma KeptNext(tables: seq<Tables>, n: nat, kept: seq<Tables>)
    requires n < |tables| && kept == Kept(tables[..n])
    requires forall i :: 0 <= i < |kept| ==> kept[i].months != tables[n].months
    ensures Kept(tables[..n + 1]) == if tables[n].months == [] then kept else kept + [tables[n]]
  {
    assert tables[..n + 1][..n] == tables[..n];
  }

  lemma WindowAt(frame: Frame, i: nat)
    requires i < |FittedMonths(frame)|
    ensures Windows(frame)[i] == Window(frame, FittedMonths(frame)[..i + 1])
    ensures Windows(frame)[i].months == FittedMonths(frame)[..i + 1] != []
  {
    hide Window, FittedMonths;
    WindowHasMonths(frame, i);
  }

  lemma {:induction false} KeptPrefix(f: Fitted, frame: Frame, n: nat)
    requires IsFit(f, frame) && n <= |f.months|
    ensures Kept(TablesServed(f)[..n + 1]) == Windows(frame)[..n]
  {
    hide Window, FittedMonths, TablesServed, Kept, EmptyTables, Windows;
    var tables := TablesServed(f);
    ServedAt(f, frame, n);
    hide IsFit;
    if n == 0 {
      assert f.months[..0] == [];
      NoRowsOfNoMonths(frame);
      NothingKept(tables);
      KeptNext(tables, 0, []);
    } else {
      KeptPrefix(f, frame, n - 1);
      WindowAt(frame, n - 1);
      NewWindow(frame, n);
      KeptNext(tables, n, Windows(frame)[..n - 1]);
      assert Windows(frame)[..n - 1] + [tables[n]] == Windows(frame)[..n];
    }
  }

  lemma NewWindow(frame: Frame, n: nat)
    requires 0 < n <= |FittedMonths(frame)|
    ensures forall i :: 0 <= i < n - 1 ==> Windows(frame)[i].months != Windows(frame)[n - 1].months
  {
    hide Window, FittedMonths;
    WindowHasMonths(frame, n - 1);
    forall i | 0 <= i < n - 1 ensures Windows(frame)[i].months != Windows(frame)[n - 1].months {
      WindowHasMonths(frame, i);
    }
  }

  /** `build_window_aggregates` on a loaded frame. */
  method BuildWindowAggregates(frame: Frame) returns (r: Result<Sources, Error>)
    ensures Publishable(Windows(frame))
    ensures r.Err? <==> frame == []
    ensures r.Ok? ==> r.value == Sources(Publish(OdBlocks(Windows(frame)), ZONE_SLOTS),
                                         Publish(PuHourBlocks(Windows(frame)), HOURS), |FittedMonths(frame)|)
  {
    hide Window, Dense, Publish, OdBlocks, PuHourBlocks, Kept;
    var f := Fit(frame);
    KeptAreWindows(f, frame);
    WindowsArePublishable(frame);
    forall i | 0 <= i < |TablesServed(f)| ensures Dense(TablesServed(f)[i]) {
      if i < |f.months| {
        WindowIsDense(frame, f.months[..i]);
      } else {
        WindowIsDense(frame, f.months);
      }
    }
    NoMonthsNoFrame(frame);
    r := PublishTables(TablesServed(f));
  }

  lemma NoMonthsNoFrame(frame: Frame)
    ensures FittedMonths(frame) == [] <==> frame == []
  {
    if frame != [] {
      FittedMonthsAre(frame);
      assert MonthOf(frame[0].pickup) in FittedMonths(frame);
    }
  }
}
