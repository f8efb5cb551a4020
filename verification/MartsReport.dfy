/**
 What a publish reports, exactly: which steps it takes, that it is reported published just when
 each of them goes through and the counts agree, and what counts the report holds.
 */
module MartsReport {
  import opened Base
  import opened MartsTables
  import opened MartsLaws
  import opened MartsRuns

  /** A statement or a query, which only a death stops, or a COPY, which any fault stops. */
  datatype Step = Statement | Copy

  predicate GoesThrough(step: Step, fault: Fault) {
    match step
    case Statement => fault != Die
    case Copy => fault == Proceed
  }

  /** No fault falls on a step that it would stop; beyond what is told, nothing happens. */
  ghost predicate Clear(faults: seq<Fault>, steps: seq<Step>) {
    forall i :: 0 <= i < |steps| && i < |faults| ==> GoesThrough(steps[i], faults[i])
  }

  function Later(faults: seq<Fault>, n: nat): seq<Fault> {
    if n <= |faults| then faults[n..] else []
  }

  /** A full refresh: drop, create, stream, swap. A month's turn: delete, stream. */
  const REFRESH: seq<Step> := [Statement, Statement, Copy, Statement]
  const TURN: seq<Step> := [Statement, Copy]

  function Turns(n: nat): (steps: seq<Step>) {
    if n == 0 then [] else Turns(n - 1) + TURN
  }

  function MartSteps(mart: Mart, months: Option<seq<Month>>, existing: set<Mart>): seq<Step> {
    if months.Some? && mart == TripsClean && mart in existing then Turns(|months.value|) else REFRESH
  }

  function AllSteps(marts: seq<Mart>, months: Option<seq<Month>>, existing: set<Mart>): seq<Step> {
    if marts == [] then []
    else AllSteps(marts[..|marts| - 1], months, existing) + MartSteps(marts[|marts| - 1], months, existing)
  }

  /** Schema and listing, every mart, the indexes. */
  function MovingSteps(t: Tables, marts: seq<Mart>, months: Option<seq<Month>>): seq<Step> {
    [Statement, Statement] + AllSteps(marts, months, Existing(t)) + [Statement]
  }

  // --------------------------------------------------------------- composing ---

  lemma ClearSplits(faults: seq<Fault>, a: seq<Step>, b: seq<Step>)
    ensures Clear(faults, a + b) <==> Clear(faults, a) && Clear(Later(faults, |a|), b)
    ensures Later(Later(faults, |a|), |b|) == Later(faults, |a + b|)
  {
    hide GoesThrough;
    var rest := Later(faults, |a|);
    forall i | 0 <= i < |b| && i < |rest| ensures rest[i] == faults[|a| + i] && (a + b)[|a| + i] == b[i] {
    }
    if Clear(faults, a + b) {
      forall i | 0 <= i < |a| && i < |faults| ensures GoesThrough(a[i], faults[i]) {
        assert (a + b)[i] == a[i];
      }
      forall i | 0 <= i < |b| && i < |rest| ensures GoesThrough(b[i], rest[i]) {
        assert GoesThrough((a + b)[|a| + i], faults[|a| + i]);
      }
    }
    if Clear(faults, a) && Clear(rest, b) {
      forall i | 0 <= i < |a + b| && i < |faults| ensures GoesThrough((a + b)[i], faults[i]) {
        if i >= |a| { assert GoesThrough(b[i - |a|], rest[i - |a|]); }
      }
    }
  }

  /** A part of a run that takes the steps, and is stopped by nothing else if `sound`. */
  ghost predicate Takes(s: State, e: State, steps: seq<Step>, sound: bool) {
    && (e.up <==> s.up && Clear(s.faults, steps) && sound)
    && (e.up ==> e.faults == Later(s.faults, |steps|))
  }

  lemma TakesThen(s: State, mid: State, e: State, a: seq<Step>, b: seq<Step>, first: bool, second: bool)
    requires Takes(s, mid, a, first) && Takes(mid, e, b, second)
    ensures Takes(s, e, a + b, first && second)
  {
    hide Clear, Later;
    ClearSplits(s.faults, a, b);
  }

  lemma NoSteps(s: State)
    ensures Takes(s, s, [], true)
  {
  }

  lemma OneStep(faults: seq<Fault>, step: Step)
    ensures Clear(faults, [step]) <==> faults == [] || GoesThrough(step, faults[0])
    ensures Later(faults, 1) == if faults == [] then [] else faults[1..]
  {
  }

  lemma ExecuteTakes(s: State, t: Tables)
    ensures Takes(s, Execute(s, t), [Statement], true)
  {
    OneStep(s.faults, Statement);
  }

  lemma QueryTakes(s: State)
    ensures Takes(s, Query(s), [Statement], true)
  {
    OneStep(s.faults, Statement);
  }

  lemma StreamTakes(s: State, name: Name, rows: Option<Table>)
    ensures Takes(s, Stream(s, name, rows), [Copy], s.up ==> name in s.tables && rows.Some?)
  {
    OneStep(s.faults, Copy);
  }

  lemma SoundIff(s: State, e: State, steps: seq<Step>, sound: bool, other: bool)
    requires Takes(s, e, steps, sound) && (s.up && Clear(s.faults, steps) ==> (sound <==> other))
    ensures Takes(s, e, steps, other)
  {
    hide Clear, Later;
  }

  lemma RefreshTakes(s: State, source: Source, mart: Mart)
    ensures Takes(s, FullRefresh(s, source, mart), REFRESH, mart in source)
  {
    hide Clear, Later, Stream, Execute;
    var dropped := Execute(s, s.tables - {Staging(mart)});
    ExecuteTakes(s, s.tables - {Staging(mart)});
    if s.up && mart in source {
      var created := CreatedStaging(dropped, mart);
      var loaded := Stream(created, Staging(mart), Some(source[mart]));
      ExecuteTakes(dropped, dropped.tables[Staging(mart) := []]);
      StreamTakes(created, Staging(mart), Some(source[mart]));
      CreatedIsThere(dropped, mart, source[mart]);
      SoundIff(created, loaded, [Copy], created.up ==> Staging(mart) in created.tables, true);
      SwapTakes(loaded, mart);
      TakesThen(s, dropped, created, [Statement], [Statement], true, true);
      TakesThen(s, created, loaded, [Statement] + [Statement], [Copy], true, true);
      TakesThen(s, loaded, SwapIn(loaded, mart), [Statement] + [Statement] + [Copy], [Statement], true, true);
      assert [Statement] + [Statement] + [Copy] + [Statement] == REFRESH;
    }
  }

  lemma CreatedIsThere(dropped: State, mart: Mart, rows: Table)
    ensures var created := CreatedStaging(dropped, mart);
            && (created.up ==> Staging(mart) in created.tables)
            && (Stream(created, Staging(mart), Some(rows)).up ==>
                  Staging(mart) in Stream(created, Staging(mart), Some(rows)).tables)
  {
  }

  lemma SwapTakes(s: State, mart: Mart)
    requires s.up ==> Staging(mart) in s.tables
    ensures Takes(s, SwapIn(s, mart), [Statement], true)
  {
    if s.up { ExecuteTakes(s, Swapped(s.tables, mart)); }
  }

  lemma TurnTakes(s: State, source: Source, mart: Mart, m: Month)
    requires Live(mart) in s.tables
    ensures Takes(s, ReplaceMonth(s, source, mart, m), TURN, mart in source)
    ensures Live(mart) in ReplaceMonth(s, source, mart, m).tables
  {
    hide Clear, Later, OfMonth, Without;
    if s.up {
      var d := s.tables[Live(mart) := Without(s.tables[Live(mart)], m)];
      var deleted := Execute(s, d);
      ExecuteTakes(s, d);
      StreamTakes(deleted, Live(mart), RowsFor(source, mart, m));
      TakesThen(s, deleted, ReplaceMonth(s, source, mart, m), [Statement], [Copy], true, deleted.up ==> mart in source);
      assert [Statement] + [Copy] == TURN;
      SoundIff(s, ReplaceMonth(s, source, mart, m), TURN, deleted.up ==> mart in source, mart in source);
    }
  }

  lemma {:induction false} TurnsTake(s: State, source: Source, mart: Mart, months: seq<Month>)
    requires Live(mart) in s.tables
    ensures Takes(s, ReplaceMonths(s, source, mart, months), Turns(|months|), months == [] || mart in source)
    ensures Live(mart) in ReplaceMonths(s, source, mart, months).tables
  {
    hide Takes, ReplaceMonth;
    if months == [] {
      NoSteps(s);
    } else {
      var init, m := months[..|months| - 1], months[|months| - 1];
      var mid := ReplaceMonths(s, source, mart, init);
      TurnsTake(s, source, mart, init);
      TurnTakes(mid, source, mart, m);
      TakesThen(s, mid, ReplaceMonths(s, source, mart, months), Turns(|init|), TURN,
                init == [] || mart in source, mart in source);
      SoundIs(s, ReplaceMonths(s, source, mart, months), Turns(|months|),
              (init == [] || mart in source) && mart in source, mart in source);
    }
  }

  lemma SoundIs(s: State, e: State, steps: seq<Step>, sound: bool, other: bool)
    requires Takes(s, e, steps, sound) && (sound <==> other)
    ensures Takes(s, e, steps, other)
  {
  }

  // ------------------------------------------------------------- every mart ---

  /** The source has the mart, or there is nothing of it to publish. */
  predicate Supplied(source: Source, mart: Mart, months: Option<seq<Month>>, existing: set<Mart>) {
    mart in source || (mart == TripsClean && mart in existing && months == Some([]))
  }

  ghost predicate AllSupplied(source: Source, marts: seq<Mart>, months: Option<seq<Month>>, existing: set<Mart>) {
    forall mart :: mart in marts ==> Supplied(source, mart, months, existing)
  }

  /** What is there before, and what the marts add to it. */
  ghost predicate LiveAfter(t: Tables, u: Tables, marts: seq<Mart>) {
    forall mart :: Live(mart) in u <==> Live(mart) in t || mart in marts
  }

  lemma MartTakes(s: State, source: Source, mart: Mart, months: Option<seq<Month>>, existing: set<Mart>)
    requires TripsClean in existing ==> Live(TripsClean) in s.tables
    ensures var e := PublishMart(s, source, mart, months, existing);
            && Takes(s, e, MartSteps(mart, months, existing), Supplied(source, mart, months, existing))
            && (e.up ==> LiveAfter(s.tables, e.tables, [mart]))
            && (mart != TripsClean ==> SameLive(s.tables, e.tables, TripsClean))
            && (Live(TripsClean) in s.tables ==> Live(TripsClean) in e.tables)
  {
    hide Takes, ReplaceMonths, FullRefresh, ScopedStep, OldOrNew;
    var e := PublishMart(s, source, mart, months, existing);
    if months.Some? && mart == TripsClean && mart in existing {
      TurnsTake(s, source, mart, months.value);
      ReplaceMonthsSteps(s, source, mart, months.value);
      StepIsLive(s.tables, e.tables, source, mart, months.value);
    } else {
      RefreshTakes(s, source, mart);
      RefreshShowsOldOrNew(s, source, mart);
      RefreshIsLive(s.tables, e.tables, source, mart);
    }
  }

  lemma StepIsLive(t: Tables, u: Tables, source: Source, mart: Mart, months: seq<Month>)
    requires ScopedStep(t, u, source, mart, months) && Live(mart) in t
    ensures LiveAfter(t, u, [mart])
  {
    hide MonthSeen;
  }

  lemma RefreshIsLive(t: Tables, u: Tables, source: Source, mart: Mart)
    requires OldOrNew(t, u, source, mart)
    ensures IsNew(u, source, mart) ==> LiveAfter(t, u, [mart])
    ensures mart != TripsClean ==> SameLive(t, u, TripsClean)
    ensures Live(TripsClean) in t ==> Live(TripsClean) in u
  {
  }

  lemma LiveThen(t: Tables, u: Tables, v: Tables, marts: seq<Mart>, mart: Mart)
    requires LiveAfter(t, u, marts) && LiveAfter(u, v, [mart])
    ensures LiveAfter(t, v, marts + [mart])
  {
    forall other ensures Live(other) in v <==> Live(other) in t || other in marts + [mart] {
      assert Live(other) in v <==> Live(other) in u || other in [mart];
    }
  }

  lemma {:induction false} MartsTake(s: State, source: Source, marts: seq<Mart>, months: Option<seq<Month>>,
                                     existing: set<Mart>)
    requires TripsClean in existing ==> Live(TripsClean) in s.tables
    ensures var e := PublishMarts(s, source, marts, months, existing);
            && Takes(s, e, AllSteps(marts, months, existing), AllSupplied(source, marts, months, existing))
            && (e.up ==> LiveAfter(s.tables, e.tables, marts))
            && (TripsClean !in marts ==> SameLive(s.tables, e.tables, TripsClean))
            && (Live(TripsClean) in s.tables ==> Live(TripsClean) in e.tables)
  {
    hide Takes, PublishMart, LiveAfter, Supplied, MartSteps;
    if marts == [] {
      NoSteps(s);
      assert LiveAfter(s.tables, s.tables, []) by { NothingAdded(s.tables); }
    } else {
      var init, mart := marts[..|marts| - 1], marts[|marts| - 1];
      assert marts == init + [mart];
      var mid := PublishMarts(s, source, init, months, existing);
      var e := PublishMarts(s, source, marts, months, existing);
      MartsTake(s, source, init, months, existing);
      MartTakes(mid, source, mart, months, existing);
      TakesThen(s, mid, e, AllSteps(init, months, existing), MartSteps(mart, months, existing),
                AllSupplied(source, init, months, existing), Supplied(source, mart, months, existing));
      SoundIs(s, e, AllSteps(marts, months, existing),
              AllSupplied(source, init, months, existing) && Supplied(source, mart, months, existing),
              AllSupplied(source, marts, months, existing));
      if e.up {
        UpBefore(mid, e, MartSteps(mart, months, existing), Supplied(source, mart, months, existing));
        LiveThen(s.tables, mid.tables, e.tables, init, mart);
      }
    }
  }

  lemma NothingAdded(t: Tables)
    ensures LiveAfter(t, t, [])
  {
  }

  lemma UpBefore(s: State, e: State, steps: seq<Step>, sound: bool)
    requires Takes(s, e, steps, sound) && e.up
    ensures s.up
  {
  }

  // ------------------------------------------------------------ up to the report ---

  /** The two tables that the indexes name are there, or are published. */
  predicate Indexed(t: Tables, marts: seq<Mart>) {
    (Live(TripsClean) in t || TripsClean in marts) && (Live(ZoneHourlyStats) in t || ZoneHourlyStats in marts)
  }

  lemma IndexTakes(s: State)
    ensures Takes(s, CreateIndexes(s), [Statement], Live(TripsClean) in s.tables && Live(ZoneHourlyStats) in s.tables)
  {
    ExecuteTakes(s, s.tables);
  }

  lemma MovedTakes(s: State, source: Source, marts: seq<Mart>, months: Option<seq<Month>>)
    requires s.up
    ensures var e := Moved(s, source, marts, months);
            && Takes(s, e, MovingSteps(s.tables, marts, months),
                     AllSupplied(source, marts, months, Existing(s.tables)) && Indexed(s.tables, marts))
            && (e.up ==> Live(TripsClean) in e.tables)
            && (TripsClean !in marts ==> SameLive(s.tables, e.tables, TripsClean))
  {
    hide Takes, PublishMarts, LiveAfter, AllSupplied, SameLive;
    var first := Execute(s, s.tables);
    var ready := Query(first);
    var existing := Existing(s.tables);
    var moved := PublishMarts(ready, source, marts, months, existing);
    var e := Moved(s, source, marts, months);
    ExecuteTakes(s, s.tables);
    QueryTakes(first);
    TakesThen(s, first, ready, [Statement], [Statement], true, true);
    assert [Statement] + [Statement] == [Statement, Statement];
    MartsTake(ready, source, marts, months, existing);
    TakesThen(s, ready, moved, [Statement, Statement], AllSteps(marts, months, existing), true,
              AllSupplied(source, marts, months, existing));
    IndexTakes(moved);
    var there := Live(TripsClean) in moved.tables && Live(ZoneHourlyStats) in moved.tables;
    TakesThen(s, moved, e, [Statement, Statement] + AllSteps(marts, months, existing), [Statement],
              AllSupplied(source, marts, months, existing), there);
    if moved.up { ThereIff(s.tables, moved.tables, marts); }
    SoundWhere(s, moved, e, [Statement, Statement] + AllSteps(marts, months, existing), [Statement],
               AllSupplied(source, marts, months, existing), there, Indexed(s.tables, marts));
  }

  lemma ThereIff(t: Tables, u: Tables, marts: seq<Mart>)
    requires LiveAfter(t, u, marts)
    ensures Live(TripsClean) in u && Live(ZoneHourlyStats) in u <==> Indexed(t, marts)
  {
  }

  lemma SoundWhere(s: State, mid: State, e: State, a: seq<Step>, b: seq<Step>, first: bool, second: bool, other: bool)
    requires Takes(s, mid, a, first) && Takes(s, e, a + b, first && second)
    requires mid.up ==> (second <==> other)
    ensures Takes(s, e, a + b, first && other)
  {
    hide Later;
    ClearSplits(s.faults, a, b);
    hide Clear;
  }

  // --------------------------------------------------------------- the report ---

  /** The months of the fact table that the run rewrites; all of them if it is not there yet. */
  predicate Renewed(t: Tables, marts: seq<Mart>, months: seq<Month>, m: Month) {
    TripsClean in marts && (Live(TripsClean) in t ==> m in months)
  }

  /** The source has as many rows of every month that the run does not rewrite as there are. */
  ghost predicate CountsAgree(t: Tables, source: Source, marts: seq<Mart>, months: seq<Month>)
    requires TripsClean in source
  {
    forall m :: !Renewed(t, marts, months, m) ==> |MonthSeen(t, TripsClean, m)| == |OfMonth(source[TripsClean], m)|
  }

  lemma AgreesAtTheEnd(s: State, source: Source, marts: seq<Mart>, months: seq<Month>)
    requires s.up && TripsClean in source && Moved(s, source, marts, Some(months)).up
    ensures var e := Moved(s, source, marts, Some(months));
            && Live(TripsClean) in e.tables
            && (Agrees(Reconciled(e.tables[Live(TripsClean)], source[TripsClean])) <==>
                CountsAgree(s.tables, source, marts, months))
  {
    hide OfMonth, Moved, Agrees, Reconciled, MonthSeen;
    var e := Moved(s, source, marts, Some(months));
    MovedTakes(s, source, marts, Some(months));
    AgreesIff(e.tables[Live(TripsClean)], source[TripsClean]);
    CountsSeen(e.tables, source);
    forall m
      ensures |MonthSeen(e.tables, TripsClean, m)| == |OfMonth(source[TripsClean], m)| <==>
              Renewed(s.tables, marts, months, m) ||
                |MonthSeen(s.tables, TripsClean, m)| == |OfMonth(source[TripsClean], m)|
    {
      MonthAtTheEnd(s, source, marts, months, m);
    }
  }

  lemma MonthAtTheEnd(s: State, source: Source, marts: seq<Mart>, months: seq<Month>, m: Month)
    requires s.up && TripsClean in source && Moved(s, source, marts, Some(months)).up
    ensures MonthSeen(Moved(s, source, marts, Some(months)).tables, TripsClean, m) ==
            if Renewed(s.tables, marts, months, m) then OfMonth(source[TripsClean], m)
            else MonthSeen(s.tables, TripsClean, m)
  {
    hide OfMonth, Moved, Takes;
    MovedTakes(s, source, marts, Some(months));
    if TripsClean !in marts {
    } else if Live(TripsClean) in s.tables {
      MovedSteps(s, source, marts, months);
    } else {
      MovedWhole(s, source, marts, Some(months));
    }
  }

  lemma MovedWhole(s: State, source: Source, marts: seq<Mart>, months: Option<seq<Month>>)
    requires s.up && Live(TripsClean) !in s.tables && Moved(s, source, marts, months).up
    ensures forall mart :: mart in marts ==> IsNew(Moved(s, source, marts, months).tables, source, mart)
  {
    hide PublishMarts, WholeMarts, IsNew, SamePlace;
    var ready := Query(Execute(s, s.tables));
    SameThrough(s);
    NotExisting(s, ready);
    FullMartsSteps(ready, source, marts, months, Existing(ready.tables));
  }

  /** The queries of the report: the statistics, and before them on the scoped path the counts. */
  function Queries(months: Option<seq<Month>>): seq<Step> {
    if months.Some? then [Statement, Statement] else [Statement]
  }

  /** Everything goes through up to the report, and then those steps too. */
  ghost predicate MovesAnd(s: State, source: Source, marts: seq<Mart>, months: Option<seq<Month>>, then': seq<Step>) {
    && Clear(s.faults, MovingSteps(s.tables, marts, months) + then')
    && AllSupplied(source, marts, months, Existing(s.tables)) && Indexed(s.tables, marts)
  }

  lemma MovesAndIff(s: State, source: Source, marts: seq<Mart>, months: Option<seq<Month>>, then': seq<Step>)
    requires s.up
    ensures var e := Moved(s, source, marts, months);
            MovesAnd(s, source, marts, months, then') <==> e.up && Clear(e.faults, then')
  {
    hide Moved, Clear, Later, AllSupplied, Indexed, MovingSteps;
    MovedTakes(s, source, marts, months);
    ClearSplits(s.faults, MovingSteps(s.tables, marts, months), then');
  }

  lemma TwoQueries(s: State)
    requires s.up
    ensures Clear(s.faults, [Statement]) <==> Query(s).up
    ensures Clear(s.faults, [Statement, Statement]) <==> Query(Query(s)).up
    ensures Query(Query(s)).up ==> Query(s).up
  {
    hide Clear, Later;
    QueryTakes(s);
    QueryTakes(Query(s));
    assert [Statement] + [Statement] == [Statement, Statement];
    TakesThen(s, Query(s), Query(Query(s)), [Statement], [Statement], true, true);
  }

  /**
   A publish is reported published if and only if no fault falls on a step it would stop, the
   source has every mart, the indexed tables are there, and on the scoped path the counts of
   the months it did not rewrite agree; it is refused just when everything goes through up to
   the counts and those do not agree. Anything else is an interruption.
   */
  lemma PublishedIff(s: State, source: Source, marts: seq<Mart>, months: Option<seq<Month>>)
    requires s.up
    ensures var o := Publish(s, source, marts, months).outcome;
            && (o.Published? <==>
                && MovesAnd(s, source, marts, months, Queries(months))
                && (months.Some? ==> TripsClean in source && CountsAgree(s.tables, source, marts, months.value)))
            && (o.Disagreed? <==>
                && months.Some? && MovesAnd(s, source, marts, months, [Statement])
                && TripsClean in source && !CountsAgree(s.tables, source, marts, months.value))
  {
    hide Moved, Agrees, Reconciled, MovesAnd, CountsAgree, Query, Clear;
    var e := Moved(s, source, marts, months);
    MovesAndIff(s, source, marts, months, Queries(months));
    MovesAndIff(s, source, marts, months, [Statement]);
    if e.up {
      TwoQueries(e);
      if months.Some? && TripsClean in source { AgreesAtTheEnd(s, source, marts, months.value); }
    }
  }

  /**
   So without faults a full publish of marts that the source has is reported published, and so
   is the first publish of the fact table, whatever months are named.
   */
  lemma FullAndFirstArePublished(s: State, source: Source, marts: seq<Mart>, months: Option<seq<Month>>)
    requires s.up && s.faults == [] && Indexed(s.tables, marts)
    requires forall mart :: mart in marts ==> mart in source
    requires months.None? || (Live(TripsClean) !in s.tables && TripsClean in marts)
    ensures Publish(s, source, marts, months).outcome.Published?
  {
    hide Publish, MovingSteps;
    PublishedIff(s, source, marts, months);
  }

  /**
   An empty list of months is not a full publish: the fact table is left as it was, and the
   outcome says whether its counts were right already.
   */
  lemma NoMonthsTouchNoFacts(s: State, source: Source, marts: seq<Mart>, m: Month)
    requires s.up && Live(TripsClean) in s.tables
    ensures MonthSeen(Publish(s, source, marts, Some([])).state.tables, TripsClean, m) ==
            MonthSeen(s.tables, TripsClean, m)
  {
    hide OfMonth, Publish;
    ScopedPublishIsSafe(s, source, marts, []);
  }

  // ------------------------------------------------------------ staging tables ---

  /** The mart is loaded beside the live one and swapped in. */
  predicate IsRefreshed(mart: Mart, months: Option<seq<Month>>, existing: set<Mart>) {
    !(months.Some? && mart == TripsClean && mart in existing)
  }

  /** Of the staging tables that were there, those of the refreshed marts are gone, and none is new. */
  ghost predicate StagingGone(t: Tables, u: Tables, marts: seq<Mart>, months: Option<seq<Month>>, existing: set<Mart>) {
    forall mart :: Staging(mart) in u <==>
      Staging(mart) in t && !(mart in marts && IsRefreshed(mart, months, existing))
  }

  lemma RefreshGone(s: State, source: Source, mart: Mart, other: Mart)
    requires FullRefresh(s, source, mart).up
    ensures Staging(other) in FullRefresh(s, source, mart).tables <==> other != mart && Staging(other) in s.tables
  {
    hide Stream;
    var created := CreatedStaging(Execute(s, s.tables - {Staging(mart)}), mart);
    StreamKeepsNames(created, Staging(mart), Some(source[mart]));
  }

  lemma StreamKeepsNames(s: State, name: Name, rows: Option<Table>)
    requires Stream(s, name, rows).up
    ensures s.up && Stream(s, name, rows).tables.Keys == s.tables.Keys
  {
  }

  lemma {:induction false} TurnsKeepStaging(s: State, source: Source, months: seq<Month>, mart: Mart)
    requires ReplaceMonths(s, source, TripsClean, months).up
    ensures Staging(mart) in ReplaceMonths(s, source, TripsClean, months).tables <==> Staging(mart) in s.tables
  {
    hide OfMonth, Without;
    if months != [] { TurnsKeepStaging(s, source, months[..|months| - 1], mart); }
  }

  lemma {:induction false} MartsStagingGone(s: State, source: Source, marts: seq<Mart>, months: Option<seq<Month>>,
                                            existing: set<Mart>)
    requires PublishMarts(s, source, marts, months, existing).up
    ensures StagingGone(s.tables, PublishMarts(s, source, marts, months, existing).tables, marts, months, existing)
  {
    hide FullRefresh, ReplaceMonths;
    if marts != [] {
      var init, mart := marts[..|marts| - 1], marts[|marts| - 1];
      assert marts == init + [mart];
      var mid := PublishMarts(s, source, init, months, existing);
      MartUp(mid, source, mart, months, existing);
      MartsStagingGone(s, source, init, months, existing);
      forall other: Mart
        ensures Staging(other) in PublishMarts(s, source, marts, months, existing).tables <==>
                Staging(other) in mid.tables && !(other == mart && IsRefreshed(mart, months, existing))
      {
        if IsRefreshed(mart, months, existing) {
          RefreshGone(mid, source, mart, other);
        } else {
          TurnsKeepStaging(mid, source, months.value, other);
        }
      }
    }
  }

  lemma MartUp(s: State, source: Source, mart: Mart, months: Option<seq<Month>>, existing: set<Mart>)
    requires PublishMart(s, source, mart, months, existing).up
    ensures s.up
  {
    if months.Some? { TurnsUp(s, source, mart, months.value); }
  }

  lemma {:induction false} TurnsUp(s: State, source: Source, mart: Mart, months: seq<Month>)
    ensures ReplaceMonths(s, source, mart, months).up ==> s.up
  {
    hide OfMonth, Without;
    if months != [] { TurnsUp(s, source, mart, months[..|months| - 1]); }
  }

  /** A run that gets to its report leaves no staging table of a mart it refreshed, and no new one. */
  lemma NoStagingLeft(s: State, source: Source, marts: seq<Mart>, months: Option<seq<Month>>)
    requires s.up && !Publish(s, source, marts, months).outcome.Interrupted?
    ensures StagingGone(s.tables, Publish(s, source, marts, months).state.tables, marts, months, Existing(s.tables))
  {
    hide PublishMarts, Reconciled, Agrees, StagingGone, SamePlace;
    var ready := Query(Execute(s, s.tables));
    var moved := PublishMarts(ready, source, marts, months, Existing(s.tables));
    SameThrough(s);
    SameThrough(moved);
    SameReport(CreateIndexes(moved), source, months);
    SameTablesIn(s, ready);
    SameTablesIn(moved, CreateIndexes(moved));
    SameTablesIn(CreateIndexes(moved), Publish(s, source, marts, months).state);
    MartsStagingGone(ready, source, marts, months, Existing(s.tables));
  }

  lemma SameTablesIn(s: State, e: State)
    requires SamePlace(s, e)
    ensures e.tables == s.tables
  {
  }
}
