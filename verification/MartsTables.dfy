/**
 What scripts/marts_publish.py does to the database, as values: the tables a reader sees,
 the steps the publish takes, and the faults that can stop it at each of them. COPY and
 each transaction are atomic; a step that dies leaves what was committed before it.
 */
module MartsTables {
  import opened Base

  datatype Mart = TripsClean | ZoneHourlyStats | MonthlyKpis | RejectionsByRule | ErrorSegments | ScoringDaily

  /** The one mart that is published by month. */
  const INCREMENTAL_MART := TripsClean

  type Month = string

  /** A row of a mart: its month, and the rest of it. */
  datatype Row = Row(month: Month, payload: int)

  type Table = seq<Row>

  datatype Name = Live(mart: Mart) | Staging(mart: Mart)

  type Tables = map<Name, Table>

  type Source = map<Mart, Table>

  /**
   What happens at one step: it goes through, the process dies before it commits, the COPY
   aborts, or the exporter dies after some rows, which reads as a clean end of stream.
   */
  datatype Fault = Proceed | Die | AbortCopy | ShortStream(rows: nat)

  /**
   The database, the faults to come, every state that was ever committed, and whether the
   publisher is still running.
   */
  datatype State = State(tables: Tables, faults: seq<Fault>, seen: seq<Tables>, up: bool) {

    function Next(): Fault {
      if faults == [] then Proceed else faults[0]
    }

    function Consumed(): State {
      if faults == [] then this else this.(faults := faults[1..])
    }

    function Committed(t: Tables): State {
      this.(tables := t, seen := seen + [t])
    }

    function Stopped(): State {
      this.(up := false)
    }
  }

  // ---------------------------------------------------------------- rows ---

  function OfMonth(t: Table, m: Month): Table {
    if t == [] then []
    else OfMonth(t[..|t| - 1], m) + if t[|t| - 1].month == m then [t[|t| - 1]] else []
  }

  /** DELETE ... WHERE month = m. */
  function Without(t: Table, m: Month): Table {
    if t == [] then []
    else Without(t[..|t| - 1], m) + if t[|t| - 1].month == m then [] else [t[|t| - 1]]
  }

  function Take(t: Table, n: nat): Table {
    if n < |t| then t[..n] else t
  }

  // --------------------------------------------------------------- steps ---

  /** `execute`: one transaction, here given by the tables it commits. */
  function Execute(s: State, t: Tables): State {
    if !s.up then s
    else if s.Next() == Die then s.Consumed().Stopped()
    else s.Consumed().Committed(t)
  }

  /** `query`: reads, or dies. */
  function Query(s: State): State {
    if !s.up then s
    else if s.Next() == Die then s.Consumed().Stopped()
    else s.Consumed()
  }

  /**
   `_stream`: the exporter's rows through one COPY, then the exporter's exit code. A mart
   the source does not have exports nothing and fails. A short stream is committed before
   the exit code is looked at.
   */
  function Stream(s: State, name: Name, rows: Option<Table>): State {
    if !s.up then s
    else
      var c := s.Consumed();
      if name !in s.tables then c.Stopped()
      else
        var table := s.tables[name];
        match s.Next()
        case Die => c.Stopped()
        case AbortCopy => c.Stopped()
        case ShortStream(n) =>
          var short := if rows.None? then [] else Take(rows.value, n);
          c.Committed(s.tables[name := table + short]).Stopped()
        case Proceed =>
          if rows.None? then c.Committed(s.tables[name := table]).Stopped()
          else c.Committed(s.tables[name := table + rows.value])
  }

  /** DROP the live table, RENAME the staging table to it, in one transaction. */
  function Swapped(t: Tables, mart: Mart): Tables
    requires Staging(mart) in t
  {
    (t - {Staging(mart)})[Live(mart) := t[Staging(mart)]]
  }

  function CreatedStaging(s: State, mart: Mart): State {
    Execute(s, s.tables[Staging(mart) := []])
  }

  function SwapIn(s: State, mart: Mart): State {
    if !s.up || Staging(mart) !in s.tables then s.Stopped() else Execute(s, Swapped(s.tables, mart))
  }

  /** `full_refresh`: drop and create the staging table, stream into it, swap it in. */
  function FullRefresh(s: State, source: Source, mart: Mart): State {
    if !s.up then s
    else
      var dropped := Execute(s, s.tables - {Staging(mart)});
      if mart !in source then dropped.Stopped()
      else SwapIn(Stream(CreatedStaging(dropped, mart), Staging(mart), Some(source[mart])), mart)
  }

  function RowsFor(source: Source, mart: Mart, m: Month): Option<Table>
  {
    if mart in source then Some(OfMonth(source[mart], m)) else None
  }

  /** One turn of the loop of `replace_months`: the delete commits, then the stream starts. */
  function ReplaceMonth(s: State, source: Source, mart: Mart, m: Month): State {
    if !s.up then s
    else if Live(mart) !in s.tables then s.Stopped()
    else
      var deleted := Execute(s, s.tables[Live(mart) := Without(s.tables[Live(mart)], m)]);
      Stream(deleted, Live(mart), RowsFor(source, mart, m))
  }

  function ReplaceMonths(s: State, source: Source, mart: Mart, months: seq<Month>): State {
    if months == [] then s
    else ReplaceMonth(ReplaceMonths(s, source, mart, months[..|months| - 1]), source, mart, months[|months| - 1])
  }

  /** One turn of the loop of `publish`. */
  function PublishMart(s: State, source: Source, mart: Mart, months: Option<seq<Month>>, existing: set<Mart>): State {
    if months.Some? && mart == INCREMENTAL_MART && mart in existing
    then ReplaceMonths(s, source, mart, months.value)
    else FullRefresh(s, source, mart)
  }

  function PublishMarts(s: State, source: Source, marts: seq<Mart>, months: Option<seq<Month>>,
                        existing: set<Mart>): State {
    if marts == [] then s
    else
      var before := PublishMarts(s, source, marts[..|marts| - 1], months, existing);
      PublishMart(before, source, marts[|marts| - 1], months, existing)
  }

  function Existing(t: Tables): set<Mart> {
    set name | name in t && name.Live? :: name.mart
  }

  /** The indexes name two tables; without them the statement fails. */
  function CreateIndexes(s: State): State {
    if s.up && !(Live(TripsClean) in s.tables && Live(ZoneHourlyStats) in s.tables) then s.Consumed().Stopped()
    else Execute(s, s.tables)
  }

  /** `publish` up to the reconciliation: schema, what exists, every mart, the indexes. */
  function Moved(s: State, source: Source, marts: seq<Mart>, months: Option<seq<Month>>): State {
    var ready := Query(Execute(s, s.tables));
    CreateIndexes(PublishMarts(ready, source, marts, months, Existing(ready.tables)))
  }

  // ---------------------------------------------------------- reconciling ---

  function MonthsIn(t: Table): set<Month> {
    set i | 0 <= i < |t| :: t[i].month
  }

  datatype Counts = Counts(published: nat, source: nat)

  /** `reconcile`: per month of either side, the two row counts. */
  function Reconciled(published: Table, source: Table): map<Month, Counts> {
    map m | m in MonthsIn(published) + MonthsIn(source) :: Counts(|OfMonth(published, m)|, |OfMonth(source, m)|)
  }

  predicate Agrees(counts: map<Month, Counts>) {
    forall m :: m in counts ==> counts[m].published == counts[m].source
  }

  datatype Outcome =
    | Interrupted
    | Disagreed(counts: map<Month, Counts>)
    | Published(counts: map<Month, Counts>)

  /** Where a publish ends, and what it reports. */
  datatype Final = Final(state: State, outcome: Outcome)

  /** What `publish` reports after its tables have moved. */
  function Report(s: State, source: Source, months: Option<seq<Month>>): Final {
    if !s.up then Final(s, Interrupted)
    else if months.None? then
      var last := Query(s);
      if last.up then Final(last, Published(map[])) else Final(last, Interrupted)
    else
      var asked := Query(s);
      if !asked.up then Final(asked, Interrupted)
      else if Live(INCREMENTAL_MART) !in s.tables || INCREMENTAL_MART !in source
      then Final(asked.Stopped(), Interrupted)
      else
        var counts := Reconciled(s.tables[Live(INCREMENTAL_MART)], source[INCREMENTAL_MART]);
        if !Agrees(counts) then Final(asked.Stopped(), Disagreed(counts))
        else
          var last := Query(asked);
          if last.up then Final(last, Published(counts)) else Final(last, Interrupted)
  }

  function Publish(s: State, source: Source, marts: seq<Mart>, months: Option<seq<Month>>): Final {
    Report(Moved(s, source, marts, months), source, months)
  }
}
