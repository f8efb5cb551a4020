/**
 The publisher of scripts/marts_publish.py as the code runs it: methods that drive the
 database statement by statement and stop at the first failure. Each is proved to do what
 MartsTables says, fault by fault.
 */
module MartsPublish {
  import opened Base
  import opened MartsTables

  class Transport {
    var tables: Tables
    var faults: seq<Fault>
    ghost var seen: seq<Tables>

    constructor (t: Tables, fs: seq<Fault>)
      ensures View() == State(t, fs, [], true)
    {
      tables, faults, seen := t, fs, [];
    }

    /** The database and its history, the publisher being up. */
    ghost function View(): State
      reads this
    {
      State(tables, faults, seen, true)
    }

    /** What a call leaves: the state it specifies, and whether the publisher goes on. */
    ghost predicate Left(s: State, ok: bool)
      reads this
    {
      View().(up := ok) == s
    }

    method TakeFault() returns (f: Fault)
      modifies this
      ensures f == old(View()).Next() && View() == old(View()).Consumed()
    {
      f := if faults == [] then Proceed else faults[0];
      if faults != [] {
        faults := faults[1..];
      }
    }

    method Execute(t: Tables) returns (ok: bool)
      modifies this
      ensures Left(MartsTables.Execute(old(View()), t), ok)
    {
      var f := TakeFault();
      if f == Die {
        return false;
      }
      tables := t;
      seen := seen + [t];
      return true;
    }

    method Query() returns (ok: bool)
      modifies this
      ensures Left(MartsTables.Query(old(View())), ok)
    {
      var f := TakeFault();
      return f != Die;
    }

    /** One COPY of what the exporter delivers, whose failure is only seen afterwards. */
    method Stream(name: Name, rows: Option<Table>) returns (ok: bool)
      modifies this
      ensures Left(MartsTables.Stream(old(View()), name, rows), ok)
    {
      var f := TakeFault();
      if name !in tables || f == Die || f == AbortCopy {
        return false;
      }
      var exported := if rows.None? then [] else rows.value;
      var delivered := if f.ShortStream? then Take(exported, f.rows) else exported;
      assert tables[name] + [] == tables[name];
      tables := tables[name := tables[name] + delivered];
      seen := seen + [tables];
      var rc := if f.ShortStream? || rows.None? then 1 else 0;
      return rc == 0;
    }

    method FullRefresh(source: Source, mart: Mart) returns (ok: bool)
      modifies this
      ensures Left(MartsTables.FullRefresh(old(View()), source, mart), ok)
    {
      ok := Execute(tables - {Staging(mart)});
      if !ok || mart !in source {
        return false;
      }
      ok := Execute(tables[Staging(mart) := []]);
      if !ok {
        return false;
      }
      ok := Stream(Staging(mart), Some(source[mart]));
      if !ok {
        return false;
      }
      ok := Execute(Swapped(tables, mart));
    }

    method ReplaceMonths(source: Source, mart: Mart, months: seq<Month>) returns (ok: bool)
      modifies this
      ensures Left(MartsTables.ReplaceMonths(old(View()), source, mart, months), ok)
    {
      ghost var start := View();
      for i := 0 to |months|
        invariant View() == MartsTables.ReplaceMonths(start, source, mart, months[..i])
      {
        assert months[..i + 1][..i] == months[..i];
        var month := months[i];
        if Live(mart) !in tables {
          StaysStopped(start, source, mart, months, i + 1);
          return false;
        }
        ok := Execute(tables[Live(mart) := Without(tables[Live(mart)], month)]);
        if !ok {
          StaysStopped(start, source, mart, months, i + 1);
          return false;
        }
        ok := Stream(Live(mart), RowsFor(source, mart, month));
        if !ok {
          StaysStopped(start, source, mart, months, i + 1);
          return false;
        }
      }
      assert months[..|months|] == months;
      return true;
    }

    method PublishMarts(source: Source, marts: seq<Mart>, months: Option<seq<Month>>,
                        existing: set<Mart>)
      returns (ok: bool)
      modifies this
      ensures Left(MartsTables.PublishMarts(old(View()), source, marts, months, existing), ok)
    {
      hide MartsTables.ReplaceMonths, MartsTables.FullRefresh;
      ghost var start := View();
      for i := 0 to |marts|
        invariant View() == MartsTables.PublishMarts(start, source, marts[..i], months, existing)
      {
        assert marts[..i + 1][..i] == marts[..i];
        var mart := marts[i];
        if months.Some? && mart == INCREMENTAL_MART && mart in existing {
          ok := ReplaceMonths(source, mart, months.value);
        } else {
          ok := FullRefresh(source, mart);
        }
        if !ok {
          MartsStayStopped(start, source, marts, months, existing, i + 1);
          return false;
        }
      }
      assert marts[..|marts|] == marts;
      return true;
    }

    /** `publish`: every mart, the indexes, and on the scoped path the reconciliation. */
    method Publish(source: Source, marts: seq<Mart>, months: Option<seq<Month>>) returns (o: Outcome)
      modifies this
      ensures var final := MartsTables.Publish(old(View()), source, marts, months);
              o == final.outcome && Left(final.state, final.state.up)
    {
      hide MartsTables.PublishMarts, Reconciled, Existing;
      ghost var start := View();
      var ok := Execute(tables);
      if ok {
        ok := Query();
      }
      if !ok {
        OpeningStopped(start, source, marts, months);
        return Interrupted;
      }
      ok := PublishMarts(source, marts, months, Existing(tables));
      if !ok {
        return Interrupted;
      }
      if !(Live(TripsClean) in tables && Live(ZoneHourlyStats) in tables) {
        var _ := TakeFault();
        return Interrupted;
      }
      ok := Execute(tables);
      if !ok {
        return Interrupted;
      }
      var counts: map<Month, Counts> := map[];
      if months.Some? {
        ok := Query();
        if !ok || INCREMENTAL_MART !in source {
          return Interrupted;
        }
        counts := Reconciled(tables[Live(INCREMENTAL_MART)], source[INCREMENTAL_MART]);
        if !Agrees(counts) {
          return Disagreed(counts);
        }
      }
      ok := Query();
      if !ok {
        return Interrupted;
      }
      return Published(counts);
    }
  }

  lemma {:induction false} StaysStopped(s: State, source: Source, mart: Mart, months: seq<Month>, n: nat)
    requires n <= |months| && !MartsTables.ReplaceMonths(s, source, mart, months[..n]).up
    ensures MartsTables.ReplaceMonths(s, source, mart, months) ==
            MartsTables.ReplaceMonths(s, source, mart, months[..n])
    decreases |months|
  {
    if n < |months| {
      var init := months[..|months| - 1];
      assert init[..n] == months[..n];
      StaysStopped(s, source, mart, init, n);
    } else {
      assert months[..n] == months;
    }
  }

  lemma {:induction false} MartsStayStopped(s: State, source: Source, marts: seq<Mart>, months: Option<seq<Month>>,
                                            existing: set<Mart>, n: nat)
    requires n <= |marts| && !MartsTables.PublishMarts(s, source, marts[..n], months, existing).up
    ensures MartsTables.PublishMarts(s, source, marts, months, existing) ==
            MartsTables.PublishMarts(s, source, marts[..n], months, existing)
    decreases |marts|
  {
    if n < |marts| {
      var init := marts[..|marts| - 1];
      assert init[..n] == marts[..n];
      MartsStayStopped(s, source, init, months, existing, n);
      StoppedMart(MartsTables.PublishMarts(s, source, init, months, existing), source, marts[|marts| - 1], months,
                  existing);
    } else {
      assert marts[..n] == marts;
    }
  }

  lemma {:induction false} StoppedMonths(s: State, source: Source, mart: Mart, months: seq<Month>)
    requires !s.up
    ensures MartsTables.ReplaceMonths(s, source, mart, months) == s
  {
    if months != [] {
      StoppedMonths(s, source, mart, months[..|months| - 1]);
    }
  }

  lemma StoppedMart(s: State, source: Source, mart: Mart, months: Option<seq<Month>>, existing: set<Mart>)
    requires !s.up
    ensures PublishMart(s, source, mart, months, existing) == s
  {
    if months.Some? { StoppedMonths(s, source, mart, months.value); }
  }

  lemma {:induction false} OpeningStopped(s: State, source: Source, marts: seq<Mart>, months: Option<seq<Month>>)
    requires s.up && !MartsTables.Query(MartsTables.Execute(s, s.tables)).up
    ensures MartsTables.Publish(s, source, marts, months) ==
            Final(MartsTables.Query(MartsTables.Execute(s, s.tables)), Interrupted)
  {
    hide Existing;
    var ready := MartsTables.Query(MartsTables.Execute(s, s.tables));
    var existing := Existing(ready.tables);
    assert marts[..0] == [];
    MartsStayStopped(ready, source, marts, months, existing, 0);
  }
}
