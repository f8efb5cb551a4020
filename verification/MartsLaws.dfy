/**
 What the publish keeps: at every committed state of a full refresh a reader sees the old
 table or the whole new one; under month-scoped publishes each month is an earlier content
 or a prefix of a source's month; a run that completes leaves every named month right; and
 what the reconciliation can and cannot see.
 */
module MartsLaws {
  import opened Base
  import opened MartsTables
  import opened Listing

  // ----------------------------------------------------------------- rows ---

  ghost function PlacesOf(t: Table, m: Month): set<nat> {
    set i: nat | i < |t| && t[i].month == m
  }

  ghost function PlacesBut(t: Table, m: Month): set<nat> {
    set i: nat | i < |t| && t[i].month != m
  }

  /** A month's rows are those of that month in the order of the table; the delete leaves the others. */
  lemma {:induction false} MonthsAreListed(t: Table, m: Month)
    ensures Lists(OfMonth(t, m), t, PlacesOf(t, m)) && Lists(Without(t, m), t, PlacesBut(t, m))
  {
    if t == [] {
      ListsNothing<Row>();
      assert PlacesOf(t, m) == {} && PlacesBut(t, m) == {};
    } else {
      hide Lists;
      var init, last := t[..|t| - 1], t[|t| - 1];
      assert t == init + [last];
      MonthsAreListed(init, m);
      ListsSnoc(OfMonth(init, m), init, PlacesOf(init, m), last, PlacesOf(t, m), last.month == m);
      ListsSnoc(Without(init, m), init, PlacesBut(init, m), last, PlacesBut(t, m), last.month != m);
    }
  }

  lemma {:induction false} OfMonthAppend(xs: Table, ys: Table, m: Month)
    ensures OfMonth(xs + ys, m) == OfMonth(xs, m) + OfMonth(ys, m)
  {
    if ys == [] {
      assert xs + ys == xs;
    } else {
      assert (xs + ys)[..|xs + ys| - 1] == xs + ys[..|ys| - 1];
      OfMonthAppend(xs, ys[..|ys| - 1], m);
    }
  }

  lemma {:induction false} OfMonthWithout(t: Table, x: Month, m: Month)
    ensures OfMonth(Without(t, x), m) == if m == x then [] else OfMonth(t, m)
  {
    if t != [] {
      var init, last := t[..|t| - 1], t[|t| - 1];
      OfMonthWithout(init, x, m);
      if last.month == x {
        assert Without(t, x) == Without(init, x);
      } else {
        OfMonthAppend(Without(init, x), [last], m);
        OfMonthOfOne(last, m);
      }
    }
  }

  lemma OfMonthOfOne(r: Row, m: Month)
    ensures OfMonth([r], m) == if r.month == m then [r] else []
  {
    assert [r][..0] == [];
  }

  ghost predicate AllOf(t: Table, m: Month) {
    forall r :: r in t ==> r.month == m
  }

  lemma {:induction false} OfMonthIsAllOf(t: Table, m: Month)
    ensures AllOf(OfMonth(t, m), m)
  {
    if t != [] { OfMonthIsAllOf(t[..|t| - 1], m); }
  }

  lemma {:induction false} OfMonthOfAllOf(t: Table, x: Month, m: Month)
    requires AllOf(t, x)
    ensures OfMonth(t, m) == if m == x then t else []
  {
    if t != [] {
      assert t[|t| - 1] in t;
      OfMonthOfAllOf(t[..|t| - 1], x, m);
      assert t == t[..|t| - 1] + [t[|t| - 1]];
    }
  }

  /** A table holds each row as often as its months do. */
  lemma {:induction false} RowsAreInTheirMonth(t: Table, r: Row)
    ensures multiset(t)[r] == multiset(OfMonth(t, r.month))[r]
  {
    if t != [] {
      assert t == t[..|t| - 1] + [t[|t| - 1]];
      RowsAreInTheirMonth(t[..|t| - 1], r);
    }
  }

  /** Tables with the same months are the same table up to the order of rows. */
  lemma SameMonthsSameRows(t: Table, u: Table)
    requires forall m :: OfMonth(t, m) == OfMonth(u, m)
    ensures multiset(t) == multiset(u)
  {
    forall r: Row ensures multiset(t)[r] == multiset(u)[r] {
      RowsAreInTheirMonth(t, r);
      RowsAreInTheirMonth(u, r);
    }
  }

  // ------------------------------------------------------ the full refresh ---

  /** The states committed since an earlier one. */
  ghost predicate Follows(s: State, e: State) {
    |s.seen| <= |e.seen| && e.seen[..|s.seen|] == s.seen
  }

  /** The live tables agree, one mart aside. */
  ghost predicate SameOthers(t: Tables, u: Tables, mart: Mart) {
    forall other :: other != mart ==>
      (Live(other) in t <==> Live(other) in u) && (Live(other) in t ==> t[Live(other)] == u[Live(other)])
  }

  ghost predicate SameLive(t: Tables, u: Tables, mart: Mart) {
    (Live(mart) in t <==> Live(mart) in u) && (Live(mart) in t ==> t[Live(mart)] == u[Live(mart)])
  }

  ghost predicate IsNew(t: Tables, source: Source, mart: Mart) {
    mart in source && Live(mart) in t && t[Live(mart)] == source[mart]
  }

  /** What a reader of the live tables can tell between two states of one refresh. */
  ghost predicate OldOrNew(t: Tables, u: Tables, source: Source, mart: Mart) {
    SameOthers(t, u, mart) && (SameLive(t, u, mart) || IsNew(u, source, mart))
  }

  /**
   At every state that full_refresh commits, and wherever it stops, a reader of the mart
   sees the whole old table or the whole source and nothing else, and no other mart moves;
   if it stops, the old table is still there; if it completes, the mart is the source.
   */
  lemma RefreshShowsOldOrNew(s: State, source: Source, mart: Mart)
    ensures var e := FullRefresh(s, source, mart);
            && Follows(s, e)
            && (forall k :: |s.seen| <= k < |e.seen| ==> OldOrNew(s.tables, e.seen[k], source, mart))
            && OldOrNew(s.tables, e.tables, source, mart)
            && (s.up && e.up ==> IsNew(e.tables, source, mart))
            && (!e.up ==> SameLive(s.tables, e.tables, mart))
            && (e.up ==> s.up)
  {
    hide Execute, Stream, SwapIn, OnlyStaging, OldOrNew, IsNew, SameLive;
    OnlyStagingIsOld(s.tables, s.tables, source, mart);
    if s.up {
      var dropped := Execute(s, s.tables - {Staging(mart)});
      ExecuteStaging(s, s, s.tables - {Staging(mart)}, mart);
      LoadsStaging(s, dropped, source, mart);
      if mart in source {
        var loaded := Stream(CreatedStaging(dropped, mart), Staging(mart), Some(source[mart]));
        SwapShows(s, loaded, source, mart);
      } else {
        StagedIsOld(s, dropped, source, mart);
      }
    }
  }

  /** Every live table is the same; only the staging table of the mart may differ. */
  ghost predicate OnlyStaging(t: Tables, u: Tables, mart: Mart) {
    forall name :: name != Staging(mart) ==>
      (name in t <==> name in u) && (name in t ==> t[name] == u[name])
  }

  /** Up to here no live table has changed at any committed state. */
  ghost predicate Staged(s: State, e: State, mart: Mart) {
    && Follows(s, e)
    && (forall k :: |s.seen| <= k < |e.seen| ==> OnlyStaging(s.tables, e.seen[k], mart))
    && OnlyStaging(s.tables, e.tables, mart)
  }

  lemma OnlyStagingIsOld(t: Tables, u: Tables, source: Source, mart: Mart)
    ensures OnlyStaging(t, u, mart) ==> OldOrNew(t, u, source, mart) && SameLive(t, u, mart)
    ensures OnlyStaging(t, t, mart)
  {
  }

  lemma StagedIsOld(s: State, e: State, source: Source, mart: Mart)
    requires Staged(s, e, mart)
    ensures forall k :: |s.seen| <= k < |e.seen| ==> OldOrNew(s.tables, e.seen[k], source, mart)
    ensures OldOrNew(s.tables, e.tables, source, mart) && SameLive(s.tables, e.tables, mart)
  {
    hide OnlyStaging, OldOrNew, SameLive;
    OnlyStagingIsOld(s.tables, e.tables, source, mart);
    forall k | |s.seen| <= k < |e.seen| ensures OldOrNew(s.tables, e.seen[k], source, mart) {
      OnlyStagingIsOld(s.tables, e.seen[k], source, mart);
    }
  }

  lemma ExecuteStaging(s: State, mid: State, t: Tables, mart: Mart)
    requires Staged(s, mid, mart) && (OnlyStaging(mid.tables, t, mart) || t == mid.tables - {Staging(mart)})
    ensures Staged(s, Execute(mid, t), mart)
    ensures Execute(mid, t).up ==> mid.up && Execute(mid, t).tables == t
  {
    StagingThen(s.tables, mid.tables, t, mart);
    hide OnlyStaging;
    OneMoreStaged(s, mid, t, mart);
  }

  lemma StagingThen(t: Tables, u: Tables, v: Tables, mart: Mart)
    requires OnlyStaging(t, u, mart) && (OnlyStaging(u, v, mart) || v == u - {Staging(mart)})
    ensures OnlyStaging(t, v, mart)
  {
  }

  lemma OneMoreStaged(s: State, mid: State, t: Tables, mart: Mart)
    requires Staged(s, mid, mart) && OnlyStaging(s.tables, t, mart)
    ensures forall c: State :: c.tables == t && c.seen == mid.seen + [t] ==> Staged(s, c, mart)
    ensures forall c: State :: c.tables == mid.tables && c.seen == mid.seen ==> Staged(s, c, mart)
  {
    hide OnlyStaging;
  }

  lemma StreamStaging(s: State, mid: State, rows: Table, mart: Mart)
    requires Staged(s, mid, mart)
    ensures Staged(s, Stream(mid, Staging(mart), Some(rows)), mart)
    ensures var e := Stream(mid, Staging(mart), Some(rows));
            e.up ==>
              && mid.up && Staging(mart) in mid.tables
              && e.tables == mid.tables[Staging(mart) := mid.tables[Staging(mart)] + rows]
  {
    if Staging(mart) in mid.tables {
      var delivered := if mid.Next().ShortStream? then Take(rows, mid.Next().rows) else rows;
      var t := mid.tables[Staging(mart) := mid.tables[Staging(mart)] + delivered];
      StagingThen(s.tables, mid.tables, t, mart);
      OneMoreStaged(s, mid, t, mart);
    } else {
      OneMoreStaged(s, mid, s.tables, mart);
    }
    hide OnlyStaging, Staged, Take;
  }

  /** Creating the staging table and streaming into it; only a complete stream goes on. */
  lemma LoadsStaging(s: State, dropped: State, source: Source, mart: Mart)
    requires Staged(s, dropped, mart)
    ensures mart in source ==>
              var e := Stream(CreatedStaging(dropped, mart), Staging(mart), Some(source[mart]));
              && Staged(s, e, mart)
              && (e.up ==> dropped.up && Staging(mart) in e.tables && e.tables[Staging(mart)] == source[mart])
  {
    hide Execute, Stream, Staged;
    if mart in source {
      var created := dropped.tables[Staging(mart) := []];
      assert OnlyStaging(dropped.tables, created, mart);
      ExecuteStaging(s, dropped, created, mart);
      StreamStaging(s, CreatedStaging(dropped, mart), source[mart], mart);
      assert [] + source[mart] == source[mart];
    }
  }

  lemma SwapShows(s: State, loaded: State, source: Source, mart: Mart)
    requires Staged(s, loaded, mart) && mart in source
    requires loaded.up ==> Staging(mart) in loaded.tables && loaded.tables[Staging(mart)] == source[mart]
    ensures var e := SwapIn(loaded, mart);
            && Follows(s, e)
            && (forall k :: |s.seen| <= k < |e.seen| ==> OldOrNew(s.tables, e.seen[k], source, mart))
            && OldOrNew(s.tables, e.tables, source, mart)
            && (e.up ==> loaded.up && IsNew(e.tables, source, mart))
            && (!e.up ==> SameLive(s.tables, e.tables, mart))
  {
    StagedIsOld(s, loaded, source, mart);
    if loaded.up {
      SwappedIsNew(s.tables, loaded.tables, source, mart);
      var e := SwapIn(loaded, mart);
      hide OldOrNew, IsNew, OnlyStaging, SameLive;
      if e.up {
        assert e.seen == loaded.seen + [Swapped(loaded.tables, mart)];
      }
    }
  }

  lemma SwappedIsNew(t: Tables, u: Tables, source: Source, mart: Mart)
    requires OnlyStaging(t, u, mart) && Staging(mart) in u && mart in source && u[Staging(mart)] == source[mart]
    ensures OldOrNew(t, Swapped(u, mart), source, mart) && IsNew(Swapped(u, mart), source, mart)
  {
  }

  // ------------------------------------------------- the month-scoped path ---

  /** The rows of a month a reader of the fact table sees. */
  function MonthSeen(t: Tables, mart: Mart, m: Month): Table {
    if Live(mart) in t then OfMonth(t[Live(mart)], m) else []
  }

  ghost predicate IsPrefixOfSource(content: Table, source: Source, mart: Mart, m: Month) {
    content == [] || (mart in source && content <= OfMonth(source[mart], m))
  }

  /** What one scoped publish may do to the fact table: named months only, and those to prefixes. */
  ghost predicate ScopedStep(t: Tables, u: Tables, source: Source, mart: Mart, months: seq<Month>) {
    && SameOthers(t, u, mart)
    && (Live(mart) in t <==> Live(mart) in u)
    && forall m :: MonthSeen(u, mart, m) == MonthSeen(t, mart, m) ||
                   (m in months && IsPrefixOfSource(MonthSeen(u, mart, m), source, mart, m))
  }

  lemma DeletedMonths(t: Tables, mart: Mart, x: Month, m: Month)
    requires Live(mart) in t
    ensures MonthSeen(t[Live(mart) := Without(t[Live(mart)], x)], mart, m) ==
            if m == x then [] else MonthSeen(t, mart, m)
  {
    OfMonthWithout(t[Live(mart)], x, m);
  }

  lemma StreamedMonths(t: Tables, mart: Mart, rows: Table, x: Month, m: Month)
    requires Live(mart) in t && AllOf(rows, x)
    ensures MonthSeen(t[Live(mart) := t[Live(mart)] + rows], mart, m) ==
            if m == x then MonthSeen(t, mart, m) + rows else MonthSeen(t, mart, m)
  {
    OfMonthAppend(t[Live(mart)], rows, m);
    OfMonthOfAllOf(rows, x, m);
  }

  lemma DeleteStep(t: Tables, source: Source, mart: Mart, x: Month)
    requires Live(mart) in t
    ensures var u := t[Live(mart) := Without(t[Live(mart)], x)];
            ScopedStep(t, u, source, mart, [x]) && MonthSeen(u, mart, x) == []
  {
    hide OfMonth, Without, MonthSeen;
    var u := t[Live(mart) := Without(t[Live(mart)], x)];
    forall m ensures MonthSeen(u, mart, m) == if m == x then [] else MonthSeen(t, mart, m) {
      DeletedMonths(t, mart, x, m);
    }
  }

  /** The stream into a month that was just deleted leaves it a prefix of the source's. */
  lemma StreamStep(t: Tables, d: Tables, source: Source, mart: Mart, x: Month, rows: Table)
    requires Live(mart) in d && ScopedStep(t, d, source, mart, [x]) && MonthSeen(d, mart, x) == []
    requires IsPrefixOfSource(rows, source, mart, x)
    ensures var u := d[Live(mart) := d[Live(mart)] + rows];
            ScopedStep(t, u, source, mart, [x]) && MonthSeen(u, mart, x) == rows
  {
    hide OfMonth, MonthSeen;
    var u := d[Live(mart) := d[Live(mart)] + rows];
    PrefixIsAllOf(rows, source, mart, x);
    forall m ensures MonthSeen(u, mart, m) == if m == x then rows else MonthSeen(d, mart, m) {
      StreamedMonths(d, mart, rows, x, m);
    }
  }

  lemma PrefixIsAllOf(rows: Table, source: Source, mart: Mart, x: Month)
    requires IsPrefixOfSource(rows, source, mart, x)
    ensures AllOf(rows, x)
  {
    if rows != [] {
      OfMonthIsAllOf(source[mart], x);
    }
  }

  ghost predicate StepsFrom(s: State, e: State, source: Source, mart: Mart, months: seq<Month>) {
    && Follows(s, e)
    && (forall k :: |s.seen| <= k < |e.seen| ==> ScopedStep(s.tables, e.seen[k], source, mart, months))
    && ScopedStep(s.tables, e.tables, source, mart, months)
  }

  ghost predicate MonthIsSource(t: Tables, source: Source, mart: Mart, m: Month) {
    mart in source && Live(mart) in t && MonthSeen(t, mart, m) == OfMonth(source[mart], m)
  }

  lemma NoStep(t: Tables, source: Source, mart: Mart, months: seq<Month>)
    ensures ScopedStep(t, t, source, mart, months)
  {
  }

  lemma ReplaceMonthSteps(s: State, source: Source, mart: Mart, x: Month)
    ensures var e := ReplaceMonth(s, source, mart, x);
            && StepsFrom(s, e, source, mart, [x])
            && (s.up && e.up ==> MonthIsSource(e.tables, source, mart, x))
  {
    hide OfMonth, Without, MonthSeen, ScopedStep, StepsFrom, Take;
    NoStep(s.tables, source, mart, [x]);
    NowhereYet(s, source, mart, [x]);
    OneMoreStep(s, s, s.tables, source, mart, [x]);
    if s.up && Live(mart) in s.tables {
      var d := s.tables[Live(mart) := Without(s.tables[Live(mart)], x)];
      DeleteStep(s.tables, source, mart, x);
      OneMoreStep(s, s, d, source, mart, [x]);
      var deleted := Execute(s, d);
      if deleted.up {
        var exported := if mart in source then OfMonth(source[mart], x) else [];
        var delivered := if deleted.Next().ShortStream? then Take(exported, deleted.Next().rows) else exported;
        assert d[Live(mart)] + [] == d[Live(mart)];
        assert IsPrefixOfSource(delivered, source, mart, x) by { TakeIsPrefix(exported, deleted.Next()); }
        StreamStep(s.tables, d, source, mart, x, delivered);
        OneMoreStep(s, deleted, d[Live(mart) := d[Live(mart)] + delivered], source, mart, [x]);
      }
    }
  }

  lemma TakeIsPrefix(t: Table, fault: Fault)
    ensures fault.ShortStream? ==> Take(t, fault.rows) <= t
  {
  }

  lemma NowhereYet(s: State, source: Source, mart: Mart, months: seq<Month>)
    ensures StepsFrom(s, s, source, mart, months)
  {
    hide MonthSeen;
  }

  /** A state that commits one more table, or none, after a state that is already explained. */
  lemma OneMoreStep(s: State, mid: State, t: Tables, source: Source, mart: Mart, months: seq<Month>)
    requires StepsFrom(s, mid, source, mart, months) && ScopedStep(s.tables, t, source, mart, months)
    ensures forall c: State :: c.tables == t && c.seen == mid.seen + [t] ==> StepsFrom(s, c, source, mart, months)
    ensures forall c: State :: c.tables == mid.tables && c.seen == mid.seen ==> StepsFrom(s, c, source, mart, months)
  {
    hide ScopedStep;
  }

  /** Steps of one publish add up. */
  lemma StepThenStep(t: Tables, u: Tables, v: Tables, source: Source, mart: Mart, months: seq<Month>, x: Month)
    requires ScopedStep(t, u, source, mart, months) && ScopedStep(u, v, source, mart, [x])
    ensures ScopedStep(t, v, source, mart, months + [x])
  {
    hide MonthSeen, IsPrefixOfSource;
  }

  lemma StepWidens(t: Tables, u: Tables, source: Source, mart: Mart, months: seq<Month>, x: Month)
    requires ScopedStep(t, u, source, mart, months)
    ensures ScopedStep(t, u, source, mart, months + [x])
  {
    hide MonthSeen, IsPrefixOfSource;
  }

  lemma {:induction false} ReplaceMonthsSteps(s: State, source: Source, mart: Mart, months: seq<Month>)
    ensures var e := ReplaceMonths(s, source, mart, months);
            && StepsFrom(s, e, source, mart, months)
            && (s.up && e.up ==> forall m :: m in months ==> MonthIsSource(e.tables, source, mart, m))
            && (e.up ==> s.up)
  {
    hide ScopedStep, MonthIsSource, ReplaceMonth;
    if months == [] {
      NoStep(s.tables, source, mart, months);
    } else {
      var init, x := months[..|months| - 1], months[|months| - 1];
      var mid := ReplaceMonths(s, source, mart, init);
      var e := ReplaceMonth(mid, source, mart, x);
      assert months == init + [x];
      ReplaceMonthsSteps(s, source, mart, init);
      ReplaceMonthSteps(mid, source, mart, x);
      StaysDown(mid, source, mart, x);
      forall k | |s.seen| <= k < |e.seen| ensures ScopedStep(s.tables, e.seen[k], source, mart, months) {
        if k < |mid.seen| {
          assert e.seen[k] == mid.seen[k];
          StepWidens(s.tables, mid.seen[k], source, mart, init, x);
        } else {
          StepThenStep(s.tables, mid.tables, e.seen[k], source, mart, init, x);
        }
      }
      StepThenStep(s.tables, mid.tables, e.tables, source, mart, init, x);
      if s.up && e.up {
        forall m | m in months ensures MonthIsSource(e.tables, source, mart, m) {
          if m != x { KeepsOtherMonths(mid.tables, e.tables, source, mart, x, m); }
        }
      }
    }
  }

  lemma StaysDown(s: State, source: Source, mart: Mart, x: Month)
    ensures ReplaceMonth(s, source, mart, x).up ==> s.up
  {
  }

  lemma KeepsOtherMonths(t: Tables, u: Tables, source: Source, mart: Mart, x: Month, m: Month)
    requires ScopedStep(t, u, source, mart, [x]) && m != x && MonthIsSource(t, source, mart, m)
    ensures MonthIsSource(u, source, mart, m)
  {
    hide MonthSeen;
  }
}
