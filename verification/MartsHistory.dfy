/**
 Histories of publishes, by month and in full, each dying anywhere: what readers can find
 between and during them. Then what the month-scoped path does show, and what its
 reconciliation cannot see.
 */
module MartsHistory {
  import opened Base
  import opened MartsTables
  import opened MartsLaws
  import opened MartsRuns
  import opened MartsReport

  // -------------------------------------------------- histories of publishes ---

  /** One launch of the publisher: the source it finds, what it was asked, what befalls it. */
  datatype Run = Run(source: Source, marts: seq<Mart>, months: Option<seq<Month>>, faults: seq<Fault>)

  function RunFrom(t: Tables, run: Run): Final {
    Publish(State(t, run.faults, [], true), run.source, run.marts, run.months)
  }

  function After(t: Tables, runs: seq<Run>): Tables {
    if runs == [] then t else RunFrom(After(t, runs[..|runs| - 1]), runs[|runs| - 1]).state.tables
  }

  /** A run is scoped when months are named and the fact table is there to replace them in. */
  predicate Scoped(t: Tables, run: Run) {
    run.months.Some? && Live(FACT) in t
  }

  /** The months of the fact table that a run is to publish. */
  predicate Names(t: Tables, run: Run, m: Month) {
    if Scoped(t, run) then m in run.months.value else FACT in run.marts
  }

  /** What a run may do to a month: nothing, or make it a prefix of what it was to publish. */
  ghost predicate RunStep(u: Tables, v: Tables, run: Run) {
    && (forall m :: MonthSeen(v, FACT, m) == MonthSeen(u, FACT, m) ||
                    (Names(u, run, m) && IsPrefixOfSource(MonthSeen(v, FACT, m), run.source, FACT, m)))
    && (forall mart :: mart != FACT ==> SameLive(u, v, mart) || IsNew(v, run.source, mart))
  }

  lemma WholeIsStep(u: Tables, v: Tables, run: Run)
    requires !Scoped(u, run) && WholeMarts(u, v, run.source, run.marts)
    ensures RunStep(u, v, run)
  {
    hide OfMonth;
    assert SameLive(u, v, FACT) || (FACT in run.marts && IsNew(v, run.source, FACT));
    forall mart | mart != FACT ensures SameLive(u, v, mart) || IsNew(v, run.source, mart) {
      assert SameLive(u, v, mart) || (mart in run.marts && IsNew(v, run.source, mart));
    }
  }

  lemma ScopedIsStep(u: Tables, v: Tables, run: Run)
    requires Scoped(u, run) && ScopedPublish(u, v, run.source, run.months.value)
    ensures RunStep(u, v, run)
  {
    hide MonthSeen, IsPrefixOfSource;
  }

  /** Everything the run set out to do to the tables it found is done. */
  ghost predicate RunIsDone(u: Tables, v: Tables, run: Run) {
    && (FACT in run.marts ==> forall m :: Names(u, run, m) ==> MonthIsSource(v, run.source, FACT, m))
    && (forall mart :: mart in run.marts && mart != FACT ==> IsNew(v, run.source, mart))
  }

  lemma NewIsDone(u: Tables, v: Tables, run: Run)
    requires forall mart :: mart in run.marts ==> IsNew(v, run.source, mart)
    ensures RunIsDone(u, v, run)
  {
    hide OfMonth;
  }

  lemma ScopedIsDone(u: Tables, v: Tables, run: Run)
    requires Scoped(u, run) && Done(v, run.source, run.months.value, run.marts)
    ensures RunIsDone(u, v, run)
  {
    hide MonthIsSource, IsNew;
  }

  /** One run of either kind, with faults anywhere. */
  lemma RunIsSafe(u: Tables, run: Run)
    ensures var p := RunFrom(u, run);
            && RunStep(u, p.state.tables, run)
            && (forall v :: v in p.state.seen ==> RunStep(u, v, run))
            && (!p.outcome.Interrupted? ==> RunIsDone(u, p.state.tables, run))
  {
    hide Publish, ScopedPublish, WholeMarts, RunStep, RunIsDone, Done, IsNew;
    var s := State(u, run.faults, [], true);
    var e := RunFrom(u, run).state;
    if Scoped(u, run) {
      ScopedPublishIsSafe(s, run.source, run.marts, run.months.value);
      ScopedIsStep(u, e.tables, run);
      forall k | 0 <= k < |e.seen| ensures RunStep(u, e.seen[k], run) {
        ScopedIsStep(u, e.seen[k], run);
      }
      if !RunFrom(u, run).outcome.Interrupted? { ScopedIsDone(u, e.tables, run); }
    } else {
      FullPublishIsWhole(s, run.source, run.marts, run.months);
      WholeIsStep(u, e.tables, run);
      forall k | 0 <= k < |e.seen| ensures RunStep(u, e.seen[k], run) {
        WholeIsStep(u, e.seen[k], run);
      }
      if !RunFrom(u, run).outcome.Interrupted? { NewIsDone(u, e.tables, run); }
    }
  }

  /** A state some reader can find: between runs, or committed during one of them. */
  ghost predicate Visible(t: Tables, runs: seq<Run>, u: Tables) {
    u == After(t, runs) ||
    exists i :: 0 <= i < |runs| && u in RunFrom(After(t, runs[..i]), runs[i]).state.seen
  }

  /** A month is what the i-th run was to make of it, or a prefix of that. */
  ghost predicate MadeBy(t: Tables, runs: seq<Run>, i: nat, u: Tables, m: Month)
    requires i < |runs|
  {
    Names(After(t, runs[..i]), runs[i], m) && IsPrefixOfSource(MonthSeen(u, FACT, m), runs[i].source, FACT, m)
  }

  /** A month is as it was before all the runs, or a prefix of what one of them was to publish. */
  ghost predicate MonthExplained(t: Tables, runs: seq<Run>, u: Tables, m: Month) {
    MonthSeen(u, FACT, m) == MonthSeen(t, FACT, m) ||
    exists i: nat :: i < |runs| && MadeBy(t, runs, i, u, m)
  }

  lemma ExplainedStep(t: Tables, runs: seq<Run>, u: Tables, v: Tables, i: nat, m: Month)
    requires i < |runs| && u == After(t, runs[..i]) && MonthExplained(t, runs[..i], u, m)
    requires MonthSeen(v, FACT, m) == MonthSeen(u, FACT, m) ||
             (Names(u, runs[i], m) && IsPrefixOfSource(MonthSeen(v, FACT, m), runs[i].source, FACT, m))
    ensures MonthExplained(t, runs, v, m)
  {
    hide MonthSeen, IsPrefixOfSource, Names, After;
    if MonthSeen(v, FACT, m) != MonthSeen(u, FACT, m) {
      assert MadeBy(t, runs, i, v, m);
    } else if MonthSeen(u, FACT, m) != MonthSeen(t, FACT, m) {
      var j: nat :| j < i && MadeBy(t, runs[..i], j, u, m);
      assert runs[..i][..j] == runs[..j];
      assert MadeBy(t, runs, j, v, m);
    }
  }

  lemma {:induction false} AfterIsExplained(t: Tables, runs: seq<Run>, m: Month)
    ensures MonthExplained(t, runs, After(t, runs), m)
  {
    hide MonthExplained, MonthSeen, IsPrefixOfSource, RunFrom, Names, SameLive, IsNew;
    if runs == [] {
      NothingRun(t, m);
    } else {
      var n := |runs| - 1;
      AfterIsExplained(t, runs[..n], m);
      RunIsSafe(After(t, runs[..n]), runs[n]);
      ExplainedStep(t, runs, After(t, runs[..n]), After(t, runs), n, m);
    }
  }

  lemma NothingRun(t: Tables, m: Month)
    ensures MonthExplained(t, [], t, m)
  {
  }

  /**
   Over any number of publishes, by month or in full, each with its own source and dying
   anywhere, from any tables, no reader ever finds a month of the fact table in any other
   state than its first one or a prefix of what some run was to publish: months that no run
   names never change.
   */
  lemma HistoryIsSafe(t: Tables, runs: seq<Run>, u: Tables, m: Month)
    requires Visible(t, runs, u)
    ensures MonthExplained(t, runs, u, m)
    ensures (forall i :: 0 <= i < |runs| ==> !Names(After(t, runs[..i]), runs[i], m)) ==>
              MonthSeen(u, FACT, m) == MonthSeen(t, FACT, m)
  {
    hide RunFrom, After, MonthSeen, IsPrefixOfSource, Names, SameLive, IsNew;
    AfterIsExplained(t, runs, m);
    if u != After(t, runs) {
      var i :| 0 <= i < |runs| && u in RunFrom(After(t, runs[..i]), runs[i]).state.seen;
      AfterIsExplained(t, runs[..i], m);
      RunIsSafe(After(t, runs[..i]), runs[i]);
      ExplainedStep(t, runs, After(t, runs[..i]), u, i, m);
    }
  }

  /** Whatever came before it, a run that gets to its report leaves its months and marts right. */
  lemma CompletedRunIsRight(t: Tables, runs: seq<Run>, run: Run)
    requires !RunFrom(After(t, runs), run).outcome.Interrupted?
    ensures RunIsDone(After(t, runs), After(t, runs + [run]), run)
  {
    hide RunIsDone, RunStep, RunFrom;
    assert (runs + [run])[..|runs|] == runs;
    RunIsSafe(After(t, runs), run);
  }

  // ------------------------------------------- what the scoped path does show ---

  /**
   The delete commits before the stream starts, so a reader between the two finds the month
   empty, whatever it held before and whatever the source has for it.
   */
  lemma MonthIsEmptyBetween(s: State, source: Source, m: Month)
    requires s.up && Live(FACT) in s.tables && s.Next() != Die
    ensures var e := ReplaceMonth(s, source, FACT, m);
            |s.seen| < |e.seen| && MonthSeen(e.seen[|s.seen|], FACT, m) == []
  {
    hide OfMonth, Without, MonthSeen, Stream;
    var d := s.tables[Live(FACT) := Without(s.tables[Live(FACT)], m)];
    var deleted, e := Execute(s, d), ReplaceMonth(s, source, FACT, m);
    DeletedMonths(s.tables, FACT, m, m);
    assert deleted.seen == s.seen + [d];
    StreamFollows(deleted, Live(FACT), RowsFor(source, FACT, m));
    assert e.seen[|s.seen|] == e.seen[..|deleted.seen|][|s.seen|] == d;
  }

  lemma StreamFollows(s: State, name: Name, rows: Option<Table>)
    ensures Follows(s, Stream(s, name, rows))
  {
  }

  /** What the source has for a month, if it has the mart at all. */
  function SourceMonth(source: Source, m: Month): Table {
    if FACT in source then OfMonth(source[FACT], m) else []
  }

  /** No state that the turn commits shows the month as anything but the old or the new one. */
  ghost predicate OldOrNewMonth(s: State, source: Source, m: Month) {
    var e := ReplaceMonth(s, source, FACT, m);
    forall k :: |s.seen| <= k < |e.seen| ==>
      MonthSeen(e.seen[k], FACT, m) == MonthSeen(s.tables, FACT, m) ||
        MonthSeen(e.seen[k], FACT, m) == SourceMonth(source, m)
  }

  /** What the stream delivers of the month, when it commits anything. */
  function Delivered(fault: Fault, src: Table): Table {
    if fault.ShortStream? then Take(src, fault.rows) else src
  }

  lemma TurnCommits(s: State, source: Source, m: Month, d: Tables, f: Tables)
    requires s.up && Live(FACT) in s.tables && s.Next() != Die
    requires d == s.tables[Live(FACT) := Without(s.tables[Live(FACT)], m)]
    requires f == d[Live(FACT) := d[Live(FACT)] + Delivered(s.Consumed().Next(), SourceMonth(source, m))]
    ensures var e, next := ReplaceMonth(s, source, FACT, m), s.Consumed().Next();
            e.seen == s.seen + if next == Die || next == AbortCopy then [d] else [d, f]
  {
    hide OfMonth, Without, Stream;
    var deleted := Execute(s, d);
    assert deleted == s.Consumed().Committed(d);
    assert deleted.Next() == s.Consumed().Next();
    StreamCommits(deleted, Live(FACT), RowsFor(source, FACT, m), SourceMonth(source, m), f);
    assert s.seen + [d] + [f] == s.seen + [d, f];
  }

  lemma StreamCommits(s: State, name: Name, rows: Option<Table>, src: Table, f: Tables)
    requires s.up && name in s.tables && src == (if rows.None? then [] else rows.value)
    requires f == s.tables[name := s.tables[name] + Delivered(s.Next(), src)]
    ensures Stream(s, name, rows).seen == s.seen + if s.Next() == Die || s.Next() == AbortCopy then [] else [f]
  {
    assert s.tables[name] + [] == s.tables[name];
    if s.Next().ShortStream? {
      assert Take([], s.Next().rows) == [];
    }
  }

  lemma SourceMonthIsPrefix(source: Source, m: Month, fault: Fault)
    ensures AllOf(Delivered(fault, SourceMonth(source, m)), m)
  {
    hide OfMonth;
    if FACT in source { OfMonthIsAllOf(source[FACT], m); }
  }

  /**
   Exactly when the turn of a month looks like one transaction: the delete never commits, or
   one of the two contents is empty and the stream is not cut short inside the month.
   */
  lemma TurnIsOneTransactionIff(s: State, source: Source, m: Month)
    requires s.up && Live(FACT) in s.tables
    ensures var before, after, next := MonthSeen(s.tables, FACT, m), SourceMonth(source, m), s.Consumed().Next();
            OldOrNewMonth(s, source, m) <==>
            s.Next() == Die || ((before == [] || after == []) && !(next.ShortStream? && 0 < next.rows < |after|))
  {
    hide OfMonth, Without, MonthSeen;
    var before, after, next := MonthSeen(s.tables, FACT, m), SourceMonth(source, m), s.Consumed().Next();
    if s.Next() != Die {
      var d := s.tables[Live(FACT) := Without(s.tables[Live(FACT)], m)];
      var rows := Delivered(next, after);
      var f := d[Live(FACT) := d[Live(FACT)] + rows];
      TurnCommits(s, source, m, d, f);
      DeletedMonths(s.tables, FACT, m, m);
      SourceMonthIsPrefix(source, m, next);
      StreamedMonths(d, FACT, rows, m, m);
      assert MonthSeen(d, FACT, m) == [] && MonthSeen(f, FACT, m) == rows;
      SeenShows(s, source, m, d, f, before, after);
      DeliveredIs(next, after);
    }
  }

  lemma DeliveredIs(fault: Fault, src: Table)
    ensures Delivered(fault, src) == src <==> !(fault.ShortStream? && fault.rows < |src|)
    ensures Delivered(fault, src) == [] <==> src == [] || (fault.ShortStream? && fault.rows == 0)
  {
    assert |Delivered(fault, src)| == if fault.ShortStream? && fault.rows < |src| then fault.rows else |src|;
  }

  lemma SeenShows(s: State, source: Source, m: Month, d: Tables, f: Tables, before: Table, after: Table)
    requires s.up && Live(FACT) in s.tables && s.Next() != Die
    requires before == MonthSeen(s.tables, FACT, m) && after == SourceMonth(source, m)
    requires var e, next := ReplaceMonth(s, source, FACT, m), s.Consumed().Next();
             e.seen == s.seen + if next == Die || next == AbortCopy then [d] else [d, f]
    ensures var next := s.Consumed().Next();
            OldOrNewMonth(s, source, m) <==>
            && (MonthSeen(d, FACT, m) == before || MonthSeen(d, FACT, m) == after)
            && (next == Die || next == AbortCopy || MonthSeen(f, FACT, m) == before || MonthSeen(f, FACT, m) == after)
  {
    hide ReplaceMonth, MonthSeen, SourceMonth;
    var e, n := ReplaceMonth(s, source, FACT, m), |s.seen|;
    assert e.seen[n] == d;
    if |e.seen| > n + 1 { assert e.seen[n + 1] == f; }
  }

  /** The exporter's exit code is not zero, and the COPY took what it delivered. */
  predicate ExporterFails(s: State, rows: Option<Table>) {
    s.Next().ShortStream? || (s.Next() == Proceed && rows.None?)
  }

  /** "Nothing was committed" is true of a failed export exactly when it delivered no row. */
  lemma NothingCommittedIff(s: State, name: Name, rows: Option<Table>)
    requires s.up && name in s.tables && ExporterFails(s, rows)
    ensures var e := Stream(s, name, rows);
            && !e.up
            && (e.tables == s.tables <==>
                !(s.Next().ShortStream? && 0 < s.Next().rows && rows.Some? && rows.value != []))
  {
    var e := Stream(s, name, rows);
    assert s.tables[name] + [] == s.tables[name];
    if s.Next().ShortStream? && rows.Some? {
      var short := Take(rows.value, s.Next().rows);
      assert |e.tables[name]| == |s.tables[name]| + |short|;
      if short == [] { assert e.tables == s.tables; }
    } else {
      assert e.tables == s.tables;
    }
  }

  /** An exporter that dies after n rows has published exactly those rows of the month. */
  lemma ShortStreamIsCommitted(s: State, source: Source, m: Month, n: nat)
    requires s.up && Live(FACT) in s.tables && FACT in source
    requires |s.faults| >= 2 && s.faults[0] == Proceed && s.faults[1] == ShortStream(n)
    ensures var e := ReplaceMonth(s, source, FACT, m);
            !e.up && MonthSeen(e.tables, FACT, m) == Take(OfMonth(source[FACT], m), n)
  {
    hide OfMonth, Without, MonthSeen;
    var d := s.tables[Live(FACT) := Without(s.tables[Live(FACT)], m)];
    var rows := Take(OfMonth(source[FACT], m), n);
    DeletedMonths(s.tables, FACT, m, m);
    PrefixIsAllOf(rows, source, FACT, m);
    StreamedMonths(d, FACT, rows, m, m);
  }

  /**
   A published scoped run makes the fact table the one a full refresh makes, row for row up
   to order, whenever the months it did not name already were the source's.
   */
  lemma ScopedIsFullRefresh(s: State, source: Source, marts: seq<Mart>, months: seq<Month>)
    requires s.up && Live(FACT) in s.tables && FACT in marts && FACT in source
    requires forall m :: m !in months ==> MonthSeen(s.tables, FACT, m) == OfMonth(source[FACT], m)
    requires Publish(s, source, marts, Some(months)).outcome.Published?
    ensures var u := Publish(s, source, marts, Some(months)).state.tables;
            && Live(FACT) in u
            && (forall m :: OfMonth(u[Live(FACT)], m) == OfMonth(source[FACT], m))
            && multiset(u[Live(FACT)]) == multiset(source[FACT])
    ensures FullRefresh(s, source, FACT).up ==>
              FullRefresh(s, source, FACT).tables[Live(FACT)] == source[FACT]
  {
    hide OfMonth, Publish, FullRefresh;
    ScopedPublishIsSafe(s, source, marts, months);
    RefreshShowsOldOrNew(s, source, FACT);
    var u := Publish(s, source, marts, Some(months)).state.tables;
    forall m ensures OfMonth(u[Live(FACT)], m) == OfMonth(source[FACT], m) {
      if m in months {
        assert MonthIsSource(u, source, FACT, m);
      } else {
        assert MonthSeen(u, FACT, m) == MonthSeen(s.tables, FACT, m);
      }
    }
    SameMonthsSameRows(u[Live(FACT)], source[FACT]);
  }

  /**
   With no fault, a scoped publish of the fact table is reported published exactly when the
   months it did not name have as many rows as the source's; otherwise it is refused.
   */
  lemma PublishedIffUnnamedCountsAgree(s: State, source: Source, marts: seq<Mart>, months: seq<Month>)
    requires s.up && s.faults == [] && Live(FACT) in s.tables
    requires FACT in marts && forall mart :: mart in marts ==> mart in source
    requires ZoneHourlyStats in marts || Live(ZoneHourlyStats) in s.tables
    ensures Publish(s, source, marts, Some(months)).outcome.Published? <==>
            forall m :: m !in months ==> |MonthSeen(s.tables, FACT, m)| == |OfMonth(source[FACT], m)|
    ensures !Publish(s, source, marts, Some(months)).outcome.Published? ==>
            Publish(s, source, marts, Some(months)).outcome.Disagreed?
  {
    hide OfMonth, Publish, MovingSteps, MonthSeen;
    PublishedIff(s, source, marts, Some(months));
  }

  /** Counts are all it looks at: an unnamed month with other rows, but as many, passes. */
  lemma ReconcileSeesOnlyCounts(s: State, source: Source, marts: seq<Mart>, months: seq<Month>, m: Month)
    requires s.up && s.faults == [] && Live(FACT) in s.tables
    requires FACT in marts && forall mart :: mart in marts ==> mart in source
    requires ZoneHourlyStats in marts || Live(ZoneHourlyStats) in s.tables
    requires forall x :: x !in months ==> |MonthSeen(s.tables, FACT, x)| == |OfMonth(source[FACT], x)|
    requires m !in months && MonthSeen(s.tables, FACT, m) != OfMonth(source[FACT], m)
    ensures var p := Publish(s, source, marts, Some(months));
            p.outcome.Published? && MonthSeen(p.state.tables, FACT, m) != OfMonth(source[FACT], m)
  {
    hide OfMonth, Publish, MonthSeen;
    PublishedIffUnnamedCountsAgree(s, source, marts, months);
    ScopedPublishIsSafe(s, source, marts, months);
  }
}
