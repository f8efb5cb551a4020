/**
 The materialization window (scripts/feast_source_window.py), and the online copy against the
 offline join (scripts/feast_online_parity.py).
 */
module OnlineParity {
  import opened Base
  import opened Calendar
  import opened Aggregates
  import opened FeatureStore
  import opened FeastSources
  import opened PointInTime
  import opened LookupParity
  import opened FeastRetrieval
  import opened Listing

  // ------------------------------------------------- materialization window ---

  datatype Error = MissingSource

  ghost predicate Spans(stamps: seq<int>, lo: int, hi: int) {
    && (forall s :: s in stamps ==> lo <= s <= hi)
    && (stamps != [] ==> lo in stamps && hi in stamps)
  }

  method MinMax(stamps: seq<int>) returns (lo: int, hi: int)
    requires stamps != []
    ensures Spans(stamps, lo, hi)
  {
    lo, hi := stamps[0], stamps[0];
    for i := 0 to |stamps|
      invariant forall k :: 0 <= k < i ==> lo <= stamps[k] <= hi
      invariant lo in stamps && hi in stamps
    {
      if stamps[i] < lo { lo := stamps[i]; }
      if stamps[i] > hi { hi := stamps[i]; }
    }
  }

  /** Every stamp of the sources that are there. */
  function AllStamps(sources: seq<Option<seq<int>>>): seq<int> {
    if sources == [] then []
    else AllStamps(sources[..|sources| - 1]) +
         match sources[|sources| - 1] case None => [] case Some(column) => column
  }

  lemma {:induction false} AllStampsAre(sources: seq<Option<seq<int>>>, stamp: int)
    ensures stamp in AllStamps(sources) <==>
            exists k :: 0 <= k < |sources| && sources[k].Some? && stamp in sources[k].value
  {
    if sources != [] { AllStampsAre(sources[..|sources| - 1], stamp); }
  }

  ghost predicate Between(extremes: seq<int>, s: int) {
    exists lo, hi :: lo in extremes && hi in extremes && lo <= s <= hi
  }

  /** The collected extremes enclose all the stamps, and are stamps themselves. */
  ghost predicate Encloses(extremes: seq<int>, all: seq<int>) {
    && (forall s :: s in all ==> Between(extremes, s))
    && (forall s :: s in extremes ==> s in all)
  }

  lemma BetweenMore(extremes: seq<int>, lo: int, hi: int, s: int)
    requires Between(extremes, s) || lo <= s <= hi
    ensures Between(extremes + [lo, hi], s)
  {
    var more := extremes + [lo, hi];
    assert lo in more && hi in more;
    if Between(extremes, s) {
      var l, h :| l in extremes && h in extremes && l <= s <= h;
      assert l in more && h in more;
    }
  }

  lemma EnclosesMore(extremes: seq<int>, all: seq<int>, column: seq<int>, lo: int, hi: int)
    requires Encloses(extremes, all) && column != [] && Spans(column, lo, hi)
    ensures Encloses(extremes + [lo, hi], all + column)
  {
    hide Between;
    forall s | s in all + column ensures Between(extremes + [lo, hi], s) {
      BetweenMore(extremes, lo, hi, s);
    }
  }

  lemma SpanOf(extremes: seq<int>, lo: int, hi: int, s: int)
    requires Between(extremes, s) && Spans(extremes, lo, hi)
    ensures lo <= s <= hi
  {
  }

  lemma EnclosingSpan(extremes: seq<int>, all: seq<int>, lo: int, hi: int)
    requires Encloses(extremes, all) && extremes != [] && Spans(extremes, lo, hi)
    ensures Spans(all, lo, hi)
  {
    hide Between;
    forall s | s in all ensures lo <= s <= hi {
      SpanOf(extremes, lo, hi, s);
    }
  }

  /**
   `window`: the stamp columns of the named sources, a missing file being an error. The
   instants are the first stamp and one second past the last, over all the sources.
   */
  method SourceWindow(sources: seq<Option<seq<int>>>) returns (r: Result<(int, int), Error>)
    requires sources != []
    requires forall i :: 0 <= i < |sources| && sources[i].Some? ==> sources[i].value != []
    ensures r.Err? <==> exists i :: 0 <= i < |sources| && sources[i].None?
    ensures r.Ok? ==> AllStamps(sources) != [] && Spans(AllStamps(sources), r.value.0, r.value.1 - 1)
  {
    hide Encloses, Spans;
    var stamps: seq<int> := [];
    NothingEnclosed();
    for i := 0 to |sources|
      invariant forall k :: 0 <= k < i ==> sources[k].Some?
      invariant Encloses(stamps, AllStamps(sources[..i]))
      invariant i > 0 ==> stamps != [] && AllStamps(sources[..i]) != []
    {
      if sources[i].None? {
        return Err(MissingSource);
      }
      var lo, hi := MinMax(sources[i].value);
      assert sources[..i + 1][..i] == sources[..i];
      EnclosesMore(stamps, AllStamps(sources[..i]), sources[i].value, lo, hi);
      stamps := stamps + [lo, hi];
    }
    assert sources[..|sources|] == sources;
    var first, last := MinMax(stamps);
    EnclosingSpan(stamps, AllStamps(sources), first, last);
    return Ok((first, last + 1));
  }

  lemma NothingEnclosed()
    ensures Encloses([], [])
  {
  }

  // ------------------------------------------------------------ online copy ---

  /** What materialization leaves online: per key the row with the newest stamp written. */
  function OnlineCopy<V>(writes: seq<SourceRow<V>>): map<(int, int), SourceRow<V>> {
    if writes == [] then map[]
    else
      var before := OnlineCopy(writes[..|writes| - 1]);
      var r := writes[|writes| - 1];
      if (r.a, r.b) in before && r.stamp < before[(r.a, r.b)].stamp then before else before[(r.a, r.b) := r]
  }

  function OnlineRow<V>(writes: seq<SourceRow<V>>, a: int, b: int): Option<SourceRow<V>> {
    if (a, b) in OnlineCopy(writes) then Some(OnlineCopy(writes)[(a, b)]) else None
  }

  lemma {:induction false} OnlineIsLatest<V>(writes: seq<SourceRow<V>>, a: int, b: int)
    ensures match OnlineRow(writes, a, b)
            case None => forall r :: r in writes ==> !(r.a == a && r.b == b)
            case Some(best) =>
              && best in writes && best.a == a && best.b == b
              && forall r :: r in writes && r.a == a && r.b == b ==> r.stamp <= best.stamp
  {
    if writes != [] {
      OnlineIsLatest(writes[..|writes| - 1], a, b);
      assert writes == writes[..|writes| - 1] + [writes[|writes| - 1]];
    }
  }

  ghost predicate SameRows<V(!new)>(rows: seq<SourceRow<V>>, writes: seq<SourceRow<V>>) {
    forall r :: r in rows <==> r in writes
  }

  /**
   Whatever order the published rows are written online in, and however often, the online
   copy of every key is the offline join as of any instant no row is stamped after.
   */
  lemma OnlineIsOfflineAtTheEnd<V(!new)>(rows: seq<SourceRow<V>>, writes: seq<SourceRow<V>>, a: int, b: int, end: int)
    requires InOrder(rows) && SameRows(rows, writes)
    requires forall r :: r in rows ==> r.stamp <= end
    ensures OnlineRow(writes, a, b) == AsOf(rows, a, b, end)
  {
    hide AsOf, OnlineRow;
    OnlineIsLatest(writes, a, b);
    AsOfIsLatest(rows, a, b, end);
    var online, offline := OnlineRow(writes, a, b), AsOf(rows, a, b, end);
    if online.Some? {
      assert Knowable(online.value, a, b, end);
      OneRowPerStamp(rows, online.value, offline.value);
    }
  }

  lemma OneRowPerStamp<V(!new)>(rows: seq<SourceRow<V>>, r: SourceRow<V>, s: SourceRow<V>)
    requires InOrder(rows) && r in rows && s in rows
    requires r.a == s.a && r.b == s.b && r.stamp == s.stamp
    ensures r == s
  {
    var i :| 0 <= i < |rows| && rows[i] == r;
    var j :| 0 <= j < |rows| && rows[j] == s;
  }

  lemma OdSourceInOrder(frame: Frame)
    ensures InOrder(OdSource(frame))
  {
    hide InOrder, Publish;
    WindowsAreStacked(frame);
    PublishInOrder(OdBlocks(Windows(frame)), ZONE_SLOTS);
  }

  /**
   The online copy serves every pair of zones the median over all the trips: no key's
   newest row is an older window's, although a window holds only the keys it knows.
   */
  lemma OnlineServesFullWindow(frame: Frame, writes: seq<SourceRow<real>>, pu: int, dropoff: int)
    requires frame != [] && SameRows(OdSource(frame), writes) && IsOdKey(pu, dropoff)
    ensures ValueOf(OnlineRow(writes, pu, dropoff)) == OdMedian(frame, pu * ZONE_SLOTS + dropoff)
  {
    hide OdSource, StoreOd, MonthOf, StartOf, FittedMonths, OdMedian, RowsBefore, SameRows, OnlineRow, InOrder, AsOf;
    NoMonthsNoFrame(frame);
    var ms := FittedMonths(frame);
    var end := StartOf(ms[|ms| - 1] + 1);
    FittedMonthsAre(frame);
    forall r | r in OdSource(frame) ensures r.stamp <= end {
      StampsAreStarts(frame, r);
    }
    OdSourceInOrder(frame);
    OnlineIsOfflineAtTheEnd(OdSource(frame), writes, pu, dropoff, end);
    StoreOdIs(frame, pu, dropoff, end);
    NaiveServesFullWindow(frame, ms, pu, dropoff);
  }

  lemma StoreOdIs(frame: Frame, pu: int, dropoff: int, t: int)
    ensures StoreOd(frame, pu, dropoff, t) == ValueOf(AsOf(OdSource(frame), pu, dropoff, t))
  {
  }

  lemma OdSourceIs(frame: Frame)
    ensures Publishable(Windows(frame)) && OdSource(frame) == Publish(OdBlocks(Windows(frame)), ZONE_SLOTS)
  {
    hide Publish, Windows, Dense;
    WindowsArePublishable(frame);
  }

  /** Every window is stamped by the start of the month after the last fitted one. */
  lemma StampEnds(frame: Frame, i: nat)
    requires i < |FittedMonths(frame)|
    ensures Windows(frame)[i].months != []
    ensures WindowStamp(Windows(frame)[i].months) <= StartOf(FittedMonths(frame)[|FittedMonths(frame)| - 1] + 1)
  {
    hide FittedMonths, StartOf, MonthOf, WindowStamp;
    var ms := FittedMonths(frame);
    FittedMonthsAre(frame);
    MonthOfStart(ms[|ms| - 1] + 1);
    StampBegun(frame, i, StartOf(ms[|ms| - 1] + 1));
    assert ms[i] <= ms[|ms| - 1];
  }

  lemma StampsAreStarts(frame: Frame, r: SourceRow<real>)
    requires r in OdSource(frame)
    ensures FittedMonths(frame) != []
    ensures r.stamp <= StartOf(FittedMonths(frame)[|FittedMonths(frame)| - 1] + 1)
  {
    hide FittedMonths, StartOf, MonthOf, WindowStamp, Publish, IsSlot, Windows, Dense, OdSource;
    OdSourceIs(frame);
    var blocks := OdBlocks(Windows(frame));
    PublishMembers(blocks, ZONE_SLOTS, r);
    var i :| 0 <= i < |blocks| && From(blocks[i], ZONE_SLOTS, r);
    StampEnds(frame, i);
  }

  lemma PuHourSourceIs(frame: Frame)
    ensures Publishable(Windows(frame)) && PuHourSource(frame) == Publish(PuHourBlocks(Windows(frame)), HOURS)
  {
    hide Publish, Windows, Dense;
    WindowsArePublishable(frame);
  }

  lemma PuHourStampsAreStarts(frame: Frame, r: SourceRow<PuHour>)
    requires r in PuHourSource(frame)
    ensures FittedMonths(frame) != []
    ensures r.stamp <= StartOf(FittedMonths(frame)[|FittedMonths(frame)| - 1] + 1)
  {
    hide FittedMonths, StartOf, MonthOf, WindowStamp, Publish, IsSlot, Windows, Dense, PuHourSource;
    PuHourSourceIs(frame);
    var blocks := PuHourBlocks(Windows(frame));
    PublishMembers(blocks, HOURS, r);
    var i :| 0 <= i < |blocks| && From(blocks[i], HOURS, r);
    StampEnds(frame, i);
  }

  lemma PuHourSourceInOrder(frame: Frame)
    ensures InOrder(PuHourSource(frame))
  {
    hide InOrder, Publish;
    WindowsAreStacked(frame);
    PublishInOrder(PuHourBlocks(Windows(frame)), HOURS);
  }

  /** The same for the speed and the rate of every zone and hour. */
  lemma OnlineServesFullPuHour(frame: Frame, writes: seq<SourceRow<PuHour>>, pu: int, hour: int)
    requires frame != [] && SameRows(PuHourSource(frame), writes) && IsPuHourKey(pu, hour)
    ensures ValueOf(OnlineRow(writes, pu, hour)) == PuHourStats(frame, pu * HOURS + hour)
  {
    hide PuHourSource, StorePuHour, MonthOf, StartOf, FittedMonths, PuHourStats, RowsBefore, SameRows;
    hide OnlineRow, InOrder, AsOf, Windows;
    NoMonthsNoFrame(frame);
    var ms := FittedMonths(frame);
    var end := StartOf(ms[|ms| - 1] + 1);
    FittedMonthsAre(frame);
    forall r | r in PuHourSource(frame) ensures r.stamp <= end {
      PuHourStampsAreStarts(frame, r);
    }
    PuHourSourceInOrder(frame);
    OnlineIsOfflineAtTheEnd(PuHourSource(frame), writes, pu, hour, end);
    StorePuHourIs(frame, pu, hour, end);
    FullPuHour(frame, pu, hour);
  }

  lemma FullPuHour(frame: Frame, pu: int, hour: int)
    requires FittedMonths(frame) != [] && IsPuHourKey(pu, hour)
    ensures var ms := FittedMonths(frame);
            StorePuHour(frame, pu, hour, StartOf(ms[|ms| - 1] + 1)) == PuHourStats(frame, pu * HOURS + hour)
  {
    hide StorePuHour, StoreOd, StartOf, FittedMonths, PuHourStats, OdMedian, OdAgrees, Windows;
    NoMonthsNoFrame(frame);
    FittedMonthsAre(frame);
    NaiveServesFullWindow(frame, FittedMonths(frame), pu, 0);
  }

  lemma StorePuHourIs(frame: Frame, pu: int, hour: int, t: int)
    ensures StorePuHour(frame, pu, hour, t) == ValueOf(AsOf(PuHourSource(frame), pu, hour, t))
  {
  }

  // ------------------------------------------------------------- seam parity ---

  /** A row of an offline answer, which carries the keys it was joined on. */
  datatype Joined<V> = Joined(rowId: int, a: int, b: int, value: Option<V>)

  function JoinedKeys<V>(joined: seq<Joined<V>>): set<(int, int)> {
    set i | 0 <= i < |joined| :: (joined[i].a, joined[i].b)
  }

  function JoinedIds<V>(joined: seq<Joined<V>>): set<int> {
    set i | 0 <= i < |joined| :: joined[i].rowId
  }

  /** The absent pairs whose keys were (or were not) answered under another row id. */
  function AbsentIds(pairs: seq<Entity>, ids: set<int>, keys: set<(int, int)>, answered: bool): seq<int> {
    if pairs == [] then []
    else
      var e := pairs[|pairs| - 1];
      AbsentIds(pairs[..|pairs| - 1], ids, keys, answered) +
      if e.rowId !in ids && ((e.a, e.b) in keys) == answered then [e.rowId] else []
  }

  ghost predicate IsMissing<V>(joined: seq<Joined<V>>, e: Entity) {
    forall j :: 0 <= j < |joined| ==> joined[j].rowId != e.rowId
  }

  ghost predicate PairJoined<V>(joined: seq<Joined<V>>, e: Entity) {
    exists j :: 0 <= j < |joined| && joined[j].a == e.a && joined[j].b == e.b
  }

  ghost function MissingRows<V>(pairs: seq<Entity>, joined: seq<Joined<V>>, answered: bool): set<nat> {
    set i: nat | i < |pairs| && IsMissing(joined, pairs[i]) && (PairJoined(joined, pairs[i]) == answered)
  }

  /** The pairs whose id no joined row has, in their order: those whose keys one has, and the rest. */
  lemma AbsentAreListed<V>(pairs: seq<Entity>, joined: seq<Joined<V>>, answered: bool)
    ensures Lists(AbsentIds(pairs, JoinedIds(joined), JoinedKeys(joined), answered), IdsOf(pairs),
                  MissingRows(pairs, joined, answered))
  {
    AbsentUpTo(pairs, JoinedIds(joined), JoinedKeys(joined), answered);
    hide Lists, AbsentIds;
    forall e: Entity
      ensures e.rowId !in JoinedIds(joined) <==> IsMissing(joined, e)
      ensures (e.a, e.b) in JoinedKeys(joined) <==> PairJoined(joined, e)
    {
    }
    assert MissingRows(pairs, joined, answered) == AbsentRows(pairs, JoinedIds(joined), JoinedKeys(joined), answered);
  }

  ghost function AbsentRows(pairs: seq<Entity>, ids: set<int>, keys: set<(int, int)>, answered: bool): set<nat> {
    set i: nat | i < |pairs| && pairs[i].rowId !in ids && ((pairs[i].a, pairs[i].b) in keys) == answered
  }

  lemma {:induction false} AbsentUpTo(pairs: seq<Entity>, ids: set<int>, keys: set<(int, int)>, answered: bool)
    ensures Lists(AbsentIds(pairs, ids, keys, answered), IdsOf(pairs), AbsentRows(pairs, ids, keys, answered))
  {
    if pairs == [] {
      ListsNothing<int>();
      assert IdsOf(pairs) == [] && AbsentRows(pairs, ids, keys, answered) == {};
    } else {
      hide Lists;
      var init, last := pairs[..|pairs| - 1], pairs[|pairs| - 1];
      AbsentUpTo(init, ids, keys, answered);
      assert IdsOf(pairs) == IdsOf(init) + [last.rowId];
      ListsSnoc(AbsentIds(init, ids, keys, answered), IdsOf(init), AbsentRows(init, ids, keys, answered), last.rowId,
                AbsentRows(pairs, ids, keys, answered), last.rowId !in ids && ((last.a, last.b) in keys) == answered);
    }
  }

  datatype OfflineShortfall = OfflineShortfall(declared: nat, returned: nat, duplicates: seq<int>,
                                               unexplained: seq<int>)

  /** `explain_shortfall` of the online gate: every pair is asked at one instant, so two classes. */
  method ExplainOffline<V>(pairs: seq<Entity>, joined: seq<Joined<V>>) returns (s: OfflineShortfall)
    ensures s.declared == |pairs| && s.returned == |joined|
    ensures s.duplicates == AbsentIds(pairs, JoinedIds(joined), JoinedKeys(joined), true)
    ensures s.unexplained == AbsentIds(pairs, JoinedIds(joined), JoinedKeys(joined), false)
  {
    hide JoinedIds, JoinedKeys;
    var ids, keys := JoinedIds(joined), JoinedKeys(joined);
    var duplicates, unexplained := [], [];
    for i := 0 to |pairs|
      invariant duplicates == AbsentIds(pairs[..i], ids, keys, true)
      invariant unexplained == AbsentIds(pairs[..i], ids, keys, false)
    {
      assert pairs[..i + 1][..i] == pairs[..i];
      if pairs[i].rowId !in ids {
        if (pairs[i].a, pairs[i].b) in keys {
          duplicates := duplicates + [pairs[i].rowId];
        } else {
          unexplained := unexplained + [pairs[i].rowId];
        }
      }
    }
    assert pairs[..|pairs|] == pairs;
    return OfflineShortfall(|pairs|, |joined|, duplicates, unexplained);
  }

  lemma {:induction false} UnexplainedMembers(pairs: seq<Entity>, ids: set<int>, keys: set<(int, int)>, e: Entity)
    requires e in pairs && e.rowId !in ids && (e.a, e.b) !in keys
    ensures e.rowId in AbsentIds(pairs, ids, keys, false)
  {
    var init, last := pairs[..|pairs| - 1], pairs[|pairs| - 1];
    assert pairs == init + [last];
    if e != last {
      UnexplainedMembers(init, ids, keys, e);
    }
  }

  /** The joined rows carry the keys of the pairs they name. */
  ghost predicate KeyedLike<V>(pairs: seq<Entity>, joined: seq<Joined<V>>) {
    forall i, e :: 0 <= i < |joined| && e in pairs && e.rowId == joined[i].rowId ==>
      joined[i].a == e.a && joined[i].b == e.b
  }

  /** `_offline`: the first joined row of the pair's keys. */
  function FirstJoined<V>(joined: seq<Joined<V>>, a: int, b: int): Option<V> {
    if joined == [] then None
    else if joined[0].a == a && joined[0].b == b then joined[0].value
    else FirstJoined(joined[1..], a, b)
  }

  lemma {:induction false} FirstJoinedIsFirst<V>(joined: seq<Joined<V>>, a: int, b: int, j: nat)
    requires j < |joined| && joined[j].a == a && joined[j].b == b
    requires forall l :: 0 <= l < j ==> joined[l].a != a || joined[l].b != b
    ensures FirstJoined(joined, a, b) == joined[j].value
  {
    if j > 0 {
      assert forall l :: 0 <= l < j - 1 ==> joined[1..][l] == joined[l + 1];
      FirstJoinedIsFirst(joined[1..], a, b, j - 1);
    }
  }

  function OfflineColumn<V>(pairs: seq<Entity>, joined: seq<Joined<V>>): (column: Column<V>)
    ensures |column| == |pairs|
  {
    seq(|pairs|, i requires 0 <= i < |pairs| => FirstJoined(joined, pairs[i].a, pairs[i].b))
  }

  function OnlineColumn<V>(pairs: seq<Entity>, writes: seq<SourceRow<V>>): (column: Column<V>)
    ensures |column| == |pairs|
  {
    seq(|pairs|, i requires 0 <= i < |pairs| => ValueOf(OnlineRow(writes, pairs[i].a, pairs[i].b)))
  }

  ghost predicate JoinedAt<V(!new)>(rows: seq<SourceRow<V>>, joined: seq<Joined<V>>, end: int) {
    forall i :: 0 <= i < |joined| ==> joined[i].value == ValueAsOf(rows, joined[i].a, joined[i].b, end)
  }

  lemma {:induction false} FirstJoinedIs<V(!new)>(rows: seq<SourceRow<V>>, joined: seq<Joined<V>>, a: int, b: int,
                                                  end: int)
    requires JoinedAt(rows, joined, end)
    ensures FirstJoined(joined, a, b) == if (a, b) in JoinedKeys(joined) then ValueAsOf(rows, a, b, end) else None
  {
    hide ValueAsOf;
    if joined != [] && (joined[0].a != a || joined[0].b != b) {
      var rest := joined[1..];
      assert forall i :: 0 < i < |joined| ==> rest[i - 1] == joined[i];
      FirstJoinedIs(rows, rest, a, b, end);
      assert (a, b) in JoinedKeys(joined) <==> (a, b) in JoinedKeys(rest);
    } else if joined != [] {
      assert (joined[0].a, joined[0].b) in JoinedKeys(joined);
    }
  }

  /** Every declared pair that the join has a value for was answered under its keys. */
  ghost predicate PairsAnswered<V(!new)>(rows: seq<SourceRow<V>>, pairs: seq<Entity>, joined: seq<Joined<V>>,
                                           end: int) {
    forall e :: e in pairs && ValueAsOf(rows, e.a, e.b, end).Some? ==> (e.a, e.b) in JoinedKeys(joined)
  }

  /**
   A column of the online gate: when the online copy was written from the published rows in
   any order and the offline join was taken at or after the last stamp, the two columns have
   no mismatch if and only if every pair the join has a value for was answered.
   */
  lemma SeamHasNoMismatchIff<V(!new)>(rows: seq<SourceRow<V>>, writes: seq<SourceRow<V>>, pairs: seq<Entity>,
                                      joined: seq<Joined<V>>, end: int)
    requires InOrder(rows) && SameRows(rows, writes) && JoinedAt(rows, joined, end)
    requires forall r :: r in rows ==> r.stamp <= end
    ensures BadRows(OnlineColumn(pairs, writes), OfflineColumn(pairs, joined), IdsOf(pairs)) == [] <==>
            PairsAnswered(rows, pairs, joined, end)
  {
    hide InOrder, SameRows, JoinedAt, AsOf, OnlineRow, FirstJoined, JoinedKeys;
    var online, offline := OnlineColumn(pairs, writes), OfflineColumn(pairs, joined);
    forall i | 0 <= i < |pairs|
      ensures var e := pairs[i];
              online[i] == offline[i] <==>
              (ValueAsOf(rows, e.a, e.b, end).Some? ==> (e.a, e.b) in JoinedKeys(joined))
    {
      var e := pairs[i];
      OnlineIsOfflineAtTheEnd(rows, writes, e.a, e.b, end);
      FirstJoinedIs(rows, joined, e.a, e.b, end);
    }
    NoBadRowsIff(online, offline, IdsOf(pairs));
    if online == offline {
      forall e | e in pairs && ValueAsOf(rows, e.a, e.b, end).Some? ensures (e.a, e.b) in JoinedKeys(joined) {
        var i :| 0 <= i < |pairs| && pairs[i] == e;
        assert online[i] == offline[i];
      }
    }
  }

  /** In particular they have none when no declared pair is unexplained. */
  lemma SeamHasNoMismatch<V(!new)>(rows: seq<SourceRow<V>>, writes: seq<SourceRow<V>>, pairs: seq<Entity>,
                                   joined: seq<Joined<V>>, end: int)
    requires InOrder(rows) && SameRows(rows, writes) && JoinedAt(rows, joined, end)
    requires forall r :: r in rows ==> r.stamp <= end
    requires KeyedLike(pairs, joined) && AbsentIds(pairs, JoinedIds(joined), JoinedKeys(joined), false) == []
    ensures BadRows(OnlineColumn(pairs, writes), OfflineColumn(pairs, joined), IdsOf(pairs)) == []
  {
    hide InOrder, SameRows, JoinedAt, AsOf, AbsentIds, KeyedLike, JoinedKeys, JoinedIds, OnlineColumn, OfflineColumn;
    SeamHasNoMismatchIff(rows, writes, pairs, joined, end);
    forall e | e in pairs ensures (e.a, e.b) in JoinedKeys(joined) {
      PairIsAnswered(pairs, joined, e);
    }
  }

  lemma {:induction false} NoneUnexplained(pairs: seq<Entity>, ids: set<int>, keys: set<(int, int)>)
    requires forall e :: e in pairs ==> e.rowId in ids || (e.a, e.b) in keys
    ensures AbsentIds(pairs, ids, keys, false) == []
  {
    if pairs != [] { NoneUnexplained(pairs[..|pairs| - 1], ids, keys); }
  }

  /** The offline answer holds just the pairs that the join has a value for, and loses none. */
  ghost predicate JoinedExactly<V(!new)>(rows: seq<SourceRow<V>>, pairs: seq<Entity>, joined: seq<Joined<V>>,
                                            end: int) {
    forall e :: e in pairs ==> ((e.a, e.b) in JoinedKeys(joined) <==> ValueAsOf(rows, e.a, e.b, end).Some?)
  }

  /** Of such an answer nothing is unexplained if and only if every declared pair has a value. */
  lemma NoPairLostIsUnexplainedIff<V(!new)>(rows: seq<SourceRow<V>>, pairs: seq<Entity>, joined: seq<Joined<V>>,
                                            end: int)
    requires KeyedLike(pairs, joined) && JoinedExactly(rows, pairs, joined, end)
    ensures AbsentIds(pairs, JoinedIds(joined), JoinedKeys(joined), false) == [] <==>
            forall e :: e in pairs ==> ValueAsOf(rows, e.a, e.b, end).Some?
  {
    hide KeyedLike, AbsentIds, JoinedKeys, JoinedIds, ValueAsOf;
    if AbsentIds(pairs, JoinedIds(joined), JoinedKeys(joined), false) == [] {
      forall e | e in pairs ensures (e.a, e.b) in JoinedKeys(joined) {
        PairIsAnswered(pairs, joined, e);
      }
    }
    if forall e :: e in pairs ==> ValueAsOf(rows, e.a, e.b, end).Some? {
      NoneUnexplained(pairs, JoinedIds(joined), JoinedKeys(joined));
    }
  }

  // ------------------------------------------------- the gate as it is run ---

  function StampsOf<V>(rows: seq<SourceRow<V>>): (stamps: seq<int>)
    ensures |stamps| == |rows| && forall i :: 0 <= i < |rows| ==> stamps[i] == rows[i].stamp
  {
    seq(|rows|, i requires 0 <= i < |rows| => rows[i].stamp)
  }

  /** What the end of the source window promises: no row of any of its sources is stamped after. */
  lemma WindowCovers<V(!new)>(rows: seq<SourceRow<V>>, sources: seq<Option<seq<int>>>, k: nat, lo: int, end: int)
    requires k < |sources| && sources[k] == Some(StampsOf(rows)) && Spans(AllStamps(sources), lo, end - 1)
    ensures forall r :: r in rows ==> r.stamp < end
  {
    forall r | r in rows ensures r.stamp < end {
      var i :| 0 <= i < |rows| && rows[i] == r;
      assert StampsOf(rows)[i] == r.stamp;
      AllStampsAre(sources, r.stamp);
    }
  }

  /** The declared pairs against an offline answer taken at one instant, all explained. */
  ghost predicate AnsweredAt<V(!new)>(rows: seq<SourceRow<V>>, pairs: seq<Entity>, joined: seq<Joined<V>>, end: int) {
    && KeyedLike(pairs, joined) && JoinedAt(rows, joined, end)
    && AbsentIds(pairs, JoinedIds(joined), JoinedKeys(joined), false) == []
  }

  /**
   Both window views of the online gate, at the instant the source window ends: with nothing
   unexplained, the online copy and the offline join have no mismatch.
   */
  lemma SeamAtWindowEnd(frame: Frame, sources: seq<Option<seq<int>>>, od: nat, puHour: nat, lo: int, end: int,
                        odPairs: seq<Entity>, odWrites: seq<SourceRow<real>>, odJoined: seq<Joined<real>>,
                        puPairs: seq<Entity>, puWrites: seq<SourceRow<PuHour>>, puJoined: seq<Joined<PuHour>>)
    requires od < |sources| && sources[od] == Some(StampsOf(OdSource(frame)))
    requires puHour < |sources| && sources[puHour] == Some(StampsOf(PuHourSource(frame)))
    requires Spans(AllStamps(sources), lo, end - 1)
    requires SameRows(OdSource(frame), odWrites) && AnsweredAt(OdSource(frame), odPairs, odJoined, end)
    requires SameRows(PuHourSource(frame), puWrites) && AnsweredAt(PuHourSource(frame), puPairs, puJoined, end)
    ensures BadRows(OnlineColumn(odPairs, odWrites), OfflineColumn(odPairs, odJoined), IdsOf(odPairs)) == []
    ensures BadRows(OnlineColumn(puPairs, puWrites), OfflineColumn(puPairs, puJoined), IdsOf(puPairs)) == []
  {
    hide OdSource, PuHourSource, InOrder, SameRows, KeyedLike, AbsentIds, OnlineColumn, OfflineColumn, BadRows, Spans;
    WindowCovers(OdSource(frame), sources, od, lo, end);
    WindowCovers(PuHourSource(frame), sources, puHour, lo, end);
    OdSourceInOrder(frame);
    PuHourSourceInOrder(frame);
    SeamHasNoMismatch(OdSource(frame), odWrites, odPairs, odJoined, end);
    SeamHasNoMismatch(PuHourSource(frame), puWrites, puPairs, puJoined, end);
  }

  lemma PairIsAnswered<V(!new)>(pairs: seq<Entity>, joined: seq<Joined<V>>, e: Entity)
    requires KeyedLike(pairs, joined) && e in pairs
    requires AbsentIds(pairs, JoinedIds(joined), JoinedKeys(joined), false) == []
    ensures (e.a, e.b) in JoinedKeys(joined)
  {
    if e.rowId in JoinedIds(joined) {
      var i :| 0 <= i < |joined| && joined[i].rowId == e.rowId;
      assert (joined[i].a, joined[i].b) in JoinedKeys(joined);
    } else if (e.a, e.b) !in JoinedKeys(joined) {
      UnexplainedMembers(pairs, JoinedIds(joined), JoinedKeys(joined), e);
    }
  }
}
