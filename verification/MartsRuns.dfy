/**
 Single publishes: what a run leaves visible wherever it dies, by the month-scoped path and by
 full refreshes, what it has done once it reports, and what its report says.
 */
module MartsRuns {
  import opened Base
  import opened MartsTables
  import opened MartsLaws

  const FACT := INCREMENTAL_MART

  // ---------------------------------------------------- one scoped publish ---

  /** What a scoped publish may change: named months of the fact table, other marts as a whole. */
  ghost predicate ScopedPublish(t: Tables, u: Tables, source: Source, months: seq<Month>) {
    && (Live(FACT) in t <==> Live(FACT) in u)
    && (forall m :: MonthSeen(u, FACT, m) == MonthSeen(t, FACT, m) ||
                    (m in months && IsPrefixOfSource(MonthSeen(u, FACT, m), source, FACT, m)))
    && (forall mart :: mart != FACT ==> SameLive(t, u, mart) || IsNew(u, source, mart))
  }

  lemma Unchanged(t: Tables, source: Source, months: seq<Month>)
    ensures ScopedPublish(t, t, source, months)
  {
  }

  lemma ThenPublish(t: Tables, u: Tables, v: Tables, source: Source, months: seq<Month>)
    requires ScopedPublish(t, u, source, months) && ScopedPublish(u, v, source, months)
    ensures ScopedPublish(t, v, source, months)
  {
    hide MonthSeen, IsPrefixOfSource;
    forall m ensures MonthSeen(v, FACT, m) == MonthSeen(t, FACT, m) ||
                     (m in months && IsPrefixOfSource(MonthSeen(v, FACT, m), source, FACT, m))
    {
      assert MonthSeen(u, FACT, m) == MonthSeen(t, FACT, m) ||
             (m in months && IsPrefixOfSource(MonthSeen(u, FACT, m), source, FACT, m));
    }
    forall mart | mart != FACT ensures SameLive(t, v, mart) || IsNew(v, source, mart) {
      assert SameLive(t, u, mart) || IsNew(u, source, mart);
      assert SameLive(u, v, mart) || IsNew(v, source, mart);
    }
  }

  lemma FactStep(t: Tables, u: Tables, source: Source, months: seq<Month>)
    requires ScopedStep(t, u, source, FACT, months)
    ensures ScopedPublish(t, u, source, months)
  {
    hide MonthSeen, IsPrefixOfSource;
  }

  lemma OtherStep(t: Tables, u: Tables, source: Source, months: seq<Month>, mart: Mart)
    requires mart != FACT && OldOrNew(t, u, source, mart)
    ensures ScopedPublish(t, u, source, months)
    ensures SameLive(t, u, FACT)
  {
    assert (Live(FACT) in t <==> Live(FACT) in u) && (Live(FACT) in t ==> t[Live(FACT)] == u[Live(FACT)]);
  }

  ghost predicate PublishesFrom(s: State, e: State, source: Source, months: seq<Month>) {
    && Follows(s, e)
    && (forall k :: |s.seen| <= k < |e.seen| ==> ScopedPublish(s.tables, e.seen[k], source, months))
    && ScopedPublish(s.tables, e.tables, source, months)
  }

  /** Everything the publish set out to do to the given marts is done. */
  ghost predicate Done(t: Tables, source: Source, months: seq<Month>, marts: seq<Mart>) {
    && (FACT in marts ==> forall m :: m in months ==> MonthIsSource(t, source, FACT, m))
    && (forall mart :: mart in marts && mart != FACT ==> IsNew(t, source, mart))
  }

  lemma PublishMartSteps(s: State, source: Source, mart: Mart, months: seq<Month>, existing: set<Mart>)
    requires FACT in existing
    ensures var e := PublishMart(s, source, mart, Some(months), existing);
            && PublishesFrom(s, e, source, months)
            && (e.up ==> s.up && Done(e.tables, source, months, [mart]))
            && (mart != FACT ==> SameLive(s.tables, e.tables, FACT))
  {
    hide ScopedStep, OldOrNew, ScopedPublish, MonthIsSource, FullRefresh, ReplaceMonths, IsNew, SameLive;
    var e := PublishMart(s, source, mart, Some(months), existing);
    if mart == FACT {
      ReplaceMonthsSteps(s, source, mart, months);
      FactStep(s.tables, e.tables, source, months);
      forall k | |s.seen| <= k < |e.seen| ensures ScopedPublish(s.tables, e.seen[k], source, months) {
        FactStep(s.tables, e.seen[k], source, months);
      }
    } else {
      RefreshShowsOldOrNew(s, source, mart);
      OtherStep(s.tables, e.tables, source, months, mart);
      forall k | |s.seen| <= k < |e.seen| ensures ScopedPublish(s.tables, e.seen[k], source, months) {
        OtherStep(s.tables, e.seen[k], source, months, mart);
      }
    }
  }

  lemma SnapshotsChain(s: State, mid: State, e: State, source: Source, months: seq<Month>)
    requires PublishesFrom(s, mid, source, months) && PublishesFrom(mid, e, source, months)
    ensures PublishesFrom(s, e, source, months)
  {
    hide ScopedPublish;
    ThenPublish(s.tables, mid.tables, e.tables, source, months);
    forall k | |s.seen| <= k < |e.seen| ensures ScopedPublish(s.tables, e.seen[k], source, months) {
      if k < |mid.seen| {
        assert e.seen[k] == mid.seen[k];
      } else {
        ThenPublish(s.tables, mid.tables, e.seen[k], source, months);
      }
    }
  }

  lemma DoneStays(t: Tables, u: Tables, source: Source, months: seq<Month>, marts: seq<Mart>, mart: Mart)
    requires Done(t, source, months, marts) && Done(u, source, months, [mart])
    requires ScopedPublish(t, u, source, months)
    requires mart != FACT ==> SameLive(t, u, FACT)
    ensures Done(u, source, months, marts + [mart])
  {
    hide IsPrefixOfSource, OfMonth;
    assert mart in [mart];
    forall other | other in marts && other != FACT ensures IsNew(u, source, other) {
      assert SameLive(t, u, other) || IsNew(u, source, other);
    }
    if FACT in marts && mart != FACT {
      forall m | m in months ensures MonthIsSource(u, source, FACT, m) {
        assert MonthIsSource(t, source, FACT, m);
      }
    }
  }

  lemma {:induction false} PublishMartsSteps(s: State, source: Source, marts: seq<Mart>, months: seq<Month>,
                                             existing: set<Mart>)
    requires FACT in existing
    ensures var e := PublishMarts(s, source, marts, Some(months), existing);
            && PublishesFrom(s, e, source, months)
            && (e.up ==> s.up && Done(e.tables, source, months, marts))
  {
    hide ScopedPublish, Done, PublishMart, SameLive;
    if marts == [] {
      Unchanged(s.tables, source, months);
      assert Done(s.tables, source, months, []) by { NothingToDo(s.tables, source, months); }
    } else {
      var init, mart := marts[..|marts| - 1], marts[|marts| - 1];
      var mid := PublishMarts(s, source, init, Some(months), existing);
      var e := PublishMart(mid, source, mart, Some(months), existing);
      assert marts == init + [mart];
      PublishMartsSteps(s, source, init, months, existing);
      PublishMartSteps(mid, source, mart, months, existing);
      SnapshotsChain(s, mid, e, source, months);
      if e.up {
        DoneStays(mid.tables, e.tables, source, months, init, mart);
      }
    }
  }

  lemma NothingToDo(t: Tables, source: Source, months: seq<Month>)
    ensures Done(t, source, months, [])
  {
  }

  lemma SameTables(s: State, e: State, source: Source, months: seq<Month>)
    requires e.tables == s.tables && (e.seen == s.seen || e.seen == s.seen + [s.tables])
    ensures PublishesFrom(s, e, source, months)
  {
    hide ScopedPublish;
    Unchanged(s.tables, source, months);
  }

  lemma MovedSteps(s: State, source: Source, marts: seq<Mart>, months: seq<Month>)
    requires Live(FACT) in s.tables
    ensures var e := Moved(s, source, marts, Some(months));
            && PublishesFrom(s, e, source, months)
            && (e.up ==> s.up && Done(e.tables, source, months, marts))
  {
    hide PublishesFrom, Done, PublishMarts;
    var first := Execute(s, s.tables);
    var ready := Query(first);
    var moved := PublishMarts(ready, source, marts, Some(months), Existing(ready.tables));
    var e := CreateIndexes(moved);
    SameTables(s, first, source, months);
    SameTables(first, ready, source, months);
    SnapshotsChain(s, first, ready, source, months);
    assert FACT in Existing(ready.tables);
    PublishMartsSteps(ready, source, marts, months, Existing(ready.tables));
    SnapshotsChain(s, ready, moved, source, months);
    SameTables(moved, e, source, months);
    SnapshotsChain(s, moved, e, source, months);
  }

  /**
   One scoped publish, with faults anywhere: at every committed state, months not named are
   as before, a named month is as before or a prefix of the source's, every other mart is
   whole; a run that got to its report, published or refused, has put every named month and
   every other mart right.
   */
  lemma ScopedPublishIsSafe(s: State, source: Source, marts: seq<Mart>, months: seq<Month>)
    requires s.up && Live(FACT) in s.tables
    ensures var p := Publish(s, source, marts, Some(months));
            && PublishesFrom(s, p.state, source, months)
            && (!p.outcome.Interrupted? ==> Done(p.state.tables, source, months, marts))
  {
    hide PublishesFrom, Done, Moved, Reconciled, Agrees;
    var e := Moved(s, source, marts, Some(months));
    var p := Publish(s, source, marts, Some(months));
    MovedSteps(s, source, marts, months);
    SameTables(e, p.state, source, months);
    SnapshotsChain(s, e, p.state, source, months);
  }

  // -------------------------------------------------------- the full refresh ---

  ghost predicate WholeMarts(t: Tables, u: Tables, source: Source, marts: seq<Mart>) {
    forall mart :: SameLive(t, u, mart) || (mart in marts && IsNew(u, source, mart))
  }

  lemma WholeThen(t: Tables, u: Tables, v: Tables, source: Source, marts: seq<Mart>, mart: Mart)
    requires WholeMarts(t, u, source, marts) && OldOrNew(u, v, source, mart)
    ensures WholeMarts(t, v, source, marts + [mart])
  {
    forall other ensures SameLive(t, v, other) || (other in marts + [mart] && IsNew(v, source, other)) {
      assert SameLive(t, u, other) || (other in marts && IsNew(u, source, other));
      assert mart in marts + [mart];
    }
  }

  lemma WholeWidens(t: Tables, u: Tables, source: Source, marts: seq<Mart>, mart: Mart)
    requires WholeMarts(t, u, source, marts)
    ensures WholeMarts(t, u, source, marts + [mart])
  {
    forall other ensures SameLive(t, u, other) || (other in marts + [mart] && IsNew(u, source, other)) {
      assert SameLive(t, u, other) || (other in marts && IsNew(u, source, other));
    }
  }

  /** No mart is published by month: none was asked for, or the fact table is not there yet. */
  predicate AllFull(months: Option<seq<Month>>, existing: set<Mart>) {
    months.None? || FACT !in existing
  }

  lemma {:induction false} FullMartsSteps(s: State, source: Source, marts: seq<Mart>, months: Option<seq<Month>>,
                                          existing: set<Mart>)
    requires AllFull(months, existing)
    ensures var e := PublishMarts(s, source, marts, months, existing);
            && WholeSince(s, e, source, marts)
            && (e.up ==> s.up && forall mart :: mart in marts ==> IsNew(e.tables, source, mart))
  {
    hide FullRefresh, WholeMarts, OldOrNew, IsNew;
    if marts == [] {
      WholeAlready(s.tables, source, marts);
    } else {
      var init, mart := marts[..|marts| - 1], marts[|marts| - 1];
      assert marts == init + [mart];
      var mid := PublishMarts(s, source, init, months, existing);
      var e := FullRefresh(mid, source, mart);
      FullMartsSteps(s, source, init, months, existing);
      RefreshShowsOldOrNew(mid, source, mart);
      WholeThen(s.tables, mid.tables, e.tables, source, init, mart);
      forall k | |s.seen| <= k < |e.seen| ensures WholeMarts(s.tables, e.seen[k], source, marts) {
        if k < |mid.seen| {
          assert e.seen[k] == mid.seen[k];
          WholeWidens(s.tables, e.seen[k], source, init, mart);
        } else {
          WholeThen(s.tables, mid.tables, e.seen[k], source, init, mart);
        }
      }
      if e.up {
        forall other | other in marts ensures IsNew(e.tables, source, other) {
          if other != mart { NewStays(mid.tables, e.tables, source, mart, other); }
        }
      }
    }
  }

  lemma WholeAlready(t: Tables, source: Source, marts: seq<Mart>)
    ensures WholeMarts(t, t, source, marts)
  {
  }

  lemma NewStays(t: Tables, u: Tables, source: Source, mart: Mart, other: Mart)
    requires OldOrNew(t, u, source, mart) && other != mart && IsNew(t, source, other)
    ensures IsNew(u, source, other)
  {
  }

  /**
   A publish that no mart goes through by month (months were not named, or the fact table is
   not there yet), dying anywhere: at every committed state each mart is the whole old one
   or, if it was to be published, the whole new one; one that ran to its report has made all
   of them new.
   */
  lemma FullPublishIsWhole(s: State, source: Source, marts: seq<Mart>, months: Option<seq<Month>>)
    requires s.up && (months.None? || Live(FACT) !in s.tables)
    ensures var p := Publish(s, source, marts, months);
            && WholeSince(s, p.state, source, marts)
            && (!p.outcome.Interrupted? ==> forall mart :: mart in marts ==> IsNew(p.state.tables, source, mart))
  {
    hide WholeMarts, IsNew, PublishMarts, Existing, SamePlace;
    var ready := Query(Execute(s, s.tables));
    var moved := PublishMarts(ready, source, marts, months, Existing(ready.tables));
    var e := CreateIndexes(moved);
    WholeAlready(s.tables, source, marts);
    SameThrough(s);
    NotExisting(s, ready);
    FullMartsSteps(ready, source, marts, months, Existing(ready.tables));
    WholeSoFar(s, ready, moved, source, marts);
    SameThrough(moved);
    WholeFrom(s, moved, e, source, marts);
    SameReport(e, source, months);
    WholeFrom(s, e, Publish(s, source, marts, months).state, source, marts);
  }

  lemma NotExisting(s: State, ready: State)
    requires SamePlace(s, ready)
    ensures Live(FACT) in s.tables <==> FACT in Existing(ready.tables)
  {
  }

  /** Nothing but the same tables committed again. */
  ghost predicate SamePlace(s: State, e: State) {
    e.tables == s.tables && (e.seen == s.seen || e.seen == s.seen + [s.tables])
  }

  lemma SameThrough(s: State)
    ensures SamePlace(s, Query(Execute(s, s.tables))) && SamePlace(s, CreateIndexes(s))
  {
  }

  lemma SameReport(s: State, source: Source, months: Option<seq<Month>>)
    ensures SamePlace(s, Report(s, source, months).state)
    ensures !Report(s, source, months).outcome.Interrupted? ==> s.up
  {
    hide Reconciled, Agrees;
  }

  ghost predicate WholeSince(s: State, e: State, source: Source, marts: seq<Mart>) {
    && Follows(s, e) && WholeMarts(s.tables, e.tables, source, marts)
    && forall k :: |s.seen| <= k < |e.seen| ==> WholeMarts(s.tables, e.seen[k], source, marts)
  }

  lemma WholeSoFar(s: State, ready: State, e: State, source: Source, marts: seq<Mart>)
    requires SamePlace(s, ready) && WholeMarts(s.tables, s.tables, source, marts)
    requires WholeSince(ready, e, source, marts)
    ensures WholeSince(s, e, source, marts)
  {
    hide WholeMarts;
    forall k | |s.seen| <= k < |e.seen| ensures WholeMarts(s.tables, e.seen[k], source, marts) {
      if k < |ready.seen| { assert e.seen[k] == e.seen[..|ready.seen|][k] == ready.seen[k]; }
    }
    assert e.seen[..|s.seen|] == e.seen[..|ready.seen|][..|s.seen|];
  }

  lemma WholeFrom(s: State, mid: State, e: State, source: Source, marts: seq<Mart>)
    requires WholeSince(s, mid, source, marts) && SamePlace(mid, e)
    ensures WholeSince(s, e, source, marts)
  {
    hide WholeMarts;
  }

  // --------------------------------------------------------- reconciliation ---

  lemma {:induction false} NotInMonths(t: Table, m: Month)
    requires m !in MonthsIn(t)
    ensures OfMonth(t, m) == []
  {
    if t != [] {
      var init := t[..|t| - 1];
      assert t[|t| - 1].month in MonthsIn(t);
      assert forall i :: 0 <= i < |init| ==> init[i] == t[i];
      NotInMonths(init, m);
    }
  }

  /** The reconciliation is green exactly when every month's counts agree on both sides. */
  lemma AgreesIff(published: Table, source: Table)
    ensures Agrees(Reconciled(published, source)) <==> forall m :: |OfMonth(published, m)| == |OfMonth(source, m)|
  {
    hide OfMonth, MonthsIn;
    var counts := Reconciled(published, source);
    if !Agrees(counts) {
      var m :| m in counts && counts[m].published != counts[m].source;
      assert |OfMonth(published, m)| != |OfMonth(source, m)|;
    } else {
      forall m ensures |OfMonth(published, m)| == |OfMonth(source, m)| {
        if m !in MonthsIn(published) && m !in MonthsIn(source) {
          NotInMonths(published, m);
          NotInMonths(source, m);
        } else {
          assert m in Reconciled(published, source);
        }
      }
    }
  }

  /** The report has every month of either side, with its rows in the fact table and in the source. */
  ghost predicate HoldsCounts(counts: map<Month, Counts>, t: Tables, source: Source)
    requires FACT in source
  {
    && (forall m :: m in counts <==> MonthSeen(t, FACT, m) != [] || OfMonth(source[FACT], m) != [])
    && forall m :: m in counts ==>
         counts[m].published == |MonthSeen(t, FACT, m)| && counts[m].source == |OfMonth(source[FACT], m)|
  }

  /**
   Whatever the faults and whatever was there before, a run with named months that is
   reported published leaves every month of the fact table with as many rows as its source,
   and one that is refused for its counts leaves some month without. Both report the counts of
   every month; a run without months reports none.
   */
  lemma ReportIsOnCounts(s: State, source: Source, marts: seq<Mart>, months: seq<Month>)
    ensures var p := Publish(s, source, marts, Some(months));
            && (!p.outcome.Interrupted? ==> Live(FACT) in p.state.tables && FACT in source)
            && (!p.outcome.Interrupted? ==> HoldsCounts(p.outcome.counts, p.state.tables, source))
            && (p.outcome.Published? ==>
                  forall m :: |MonthSeen(p.state.tables, FACT, m)| == |OfMonth(source[FACT], m)|)
            && (p.outcome.Disagreed? ==>
                  exists m :: |MonthSeen(p.state.tables, FACT, m)| != |OfMonth(source[FACT], m)|)
    ensures var o := Publish(s, source, marts, None).outcome; o.Interrupted? || o == Published(map[])
  {
    hide OfMonth, Moved, Agrees, Reconciled, HoldsCounts;
    var e := Moved(s, source, marts, Some(months));
    if Live(FACT) in e.tables && FACT in source {
      AgreesIff(e.tables[Live(FACT)], source[FACT]);
      CountsSeen(e.tables, source);
      ReconciledHolds(e.tables, source);
    }
  }

  lemma ReconciledHolds(t: Tables, source: Source)
    requires Live(FACT) in t && FACT in source
    ensures HoldsCounts(Reconciled(t[Live(FACT)], source[FACT]), t, source)
  {
    hide OfMonth, MonthsIn;
    forall m
      ensures m in MonthsIn(t[Live(FACT)]) <==> OfMonth(t[Live(FACT)], m) != []
      ensures m in MonthsIn(source[FACT]) <==> OfMonth(source[FACT], m) != []
    {
      InMonthsIff(t[Live(FACT)], m);
      InMonthsIff(source[FACT], m);
    }
  }

  lemma {:induction false} InMonthsIff(t: Table, m: Month)
    ensures m in MonthsIn(t) <==> OfMonth(t, m) != []
  {
    if m !in MonthsIn(t) {
      NotInMonths(t, m);
    } else {
      var n := |t| - 1;
      if t[n].month != m {
        var i :| 0 <= i < |t| && t[i].month == m;
        assert t[..n][i].month == m;
        InMonthsIff(t[..n], m);
      }
    }
  }

  lemma CountsSeen(t: Tables, source: Source)
    requires Live(FACT) in t && FACT in source
    ensures (forall m :: |OfMonth(t[Live(FACT)], m)| == |OfMonth(source[FACT], m)|) <==>
            (forall m :: |MonthSeen(t, FACT, m)| == |OfMonth(source[FACT], m)|)
  {
    hide OfMonth;
  }
}
