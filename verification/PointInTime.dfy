/**
 The point-in-time claims of the feature store: what the honest join serves, when it is
 what `transform` serves, that nothing leaks from the row's own month or later, and that
 the naive timestamp serves the full window.
 */
module PointInTime {
  import opened Base
  import opened Calendar
  import opened Aggregates
  import opened FeatureStore
  import opened FeastSources

  function OdSource(frame: Frame): seq<SourceRow<real>> {
    WindowsArePublishable(frame);
    Publish(OdBlocks(Windows(frame)), ZONE_SLOTS)
  }

  function PuHourSource(frame: Frame): seq<SourceRow<PuHour>> {
    WindowsArePublishable(frame);
    Publish(PuHourBlocks(Windows(frame)), HOURS)
  }

  /** The honest retrieval of the od_window view: a row's raw keys and its own timestamp. */
  function StoreOd(frame: Frame, pu: int, dropoff: int, t: int): Option<real> {
    ValueAsOf(OdSource(frame), pu, dropoff, t)
  }

  /** ... and of the pu_hour_window view, keyed on the hour of a pickup, as of instant t. */
  function StorePuHour(frame: Frame, pu: int, hour: int, t: int): Option<PuHour> {
    ValueAsOf(PuHourSource(frame), pu, hour, t)
  }

  // ------------------------------------------------------------- history ---

  /** The trips dated before a month. */
  function RowsBefore(frame: Frame, month: int): Frame {
    if frame == [] then []
    else
      var trip := frame[|frame| - 1];
      RowsBefore(frame[..|frame| - 1], month) + if MonthOf(trip.pickup) < month then [trip] else []
  }

  lemma {:induction false} RowsBeforeIs(frame: Frame, months: seq<int>, month: int)
    requires forall i :: 0 <= i < |frame| ==> (MonthOf(frame[i].pickup) in months <==> MonthOf(frame[i].pickup) < month)
    ensures RowsOf(frame, months) == RowsBefore(frame, month)
  {
    hide MonthOf;
    if frame != [] {
      assert MonthOf(frame[|frame| - 1].pickup) in months <==> MonthOf(frame[|frame| - 1].pickup) < month;
      RowsBeforeIs(frame[..|frame| - 1], months, month);
    }
  }

  /** How many of the fitted months lie before a month. */
  function Below(ms: seq<int>, month: int): (n: nat)
    ensures n <= |ms|
  {
    if ms == [] then 0 else Below(ms[..|ms| - 1], month) + if ms[|ms| - 1] < month then 1 else 0
  }

  lemma {:induction false} BelowIsPrefix(ms: seq<int>, month: int)
    requires Increasing(ms)
    ensures forall i :: 0 <= i < Below(ms, month) ==> ms[i] < month
    ensures forall i :: Below(ms, month) <= i < |ms| ==> month <= ms[i]
  {
    if ms != [] {
      var init := ms[..|ms| - 1];
      BelowIsPrefix(init, month);
      assert forall i :: 0 <= i < |init| ==> init[i] == ms[i];
      assert Below(init, month) < |init| ==> month <= ms[Below(init, month)];
    }
  }

  /** The months before a row's own are a prefix of the fitted months, and their rows its history. */
  lemma HistoryIsPrefix(frame: Frame, month: int)
    ensures var ms := FittedMonths(frame);
            RowsOf(frame, ms[..Below(ms, month)]) == RowsBefore(frame, month)
  {
    hide MonthOf, FittedMonths, Below;
    var ms := FittedMonths(frame);
    var n := Below(ms, month);
    FittedMonthsAre(frame);
    BelowIsPrefix(ms, month);
    forall i | 0 <= i < |frame| ensures MonthOf(frame[i].pickup) in ms[..n] <==> MonthOf(frame[i].pickup) < month {
      var m := MonthOf(frame[i].pickup);
      assert m in ms;
      var j :| 0 <= j < |ms| && ms[j] == m;
      if j < n {
        assert ms[..n][j] == m;
      }
    }
    RowsBeforeIs(frame, ms[..n], month);
  }

  // ------------------------------------------------ the windows are stacked ---

  lemma StampOrder(frame: Frame, i: nat, j: nat)
    requires i < j < |FittedMonths(frame)|
    ensures Windows(frame)[i].months != [] && Windows(frame)[j].months != []
    ensures WindowStamp(Windows(frame)[i].months) < WindowStamp(Windows(frame)[j].months)
  {
    hide FirstDay, Window, FittedMonths;
    var ms := FittedMonths(frame);
    FittedMonthsAre(frame);
    WindowAt(frame, i);
    WindowAt(frame, j);
    StartsIncrease(ms[i] + 1, ms[j] + 1);
  }

  /** A window is knowable at t exactly when all its months lie before t's. */
  lemma StampBegun(frame: Frame, i: nat, t: int)
    requires i < |FittedMonths(frame)|
    ensures Windows(frame)[i].months != []
    ensures WindowStamp(Windows(frame)[i].months) <= t <==> FittedMonths(frame)[i] < MonthOf(t)
  {
    hide StartOf, MonthOf, Window, FittedMonths;
    WindowAt(frame, i);
    BegunIff(FittedMonths(frame)[i] + 1, t);
  }

  lemma WindowGrows(frame: Frame, i: nat, j: nat, k: nat)
    requires i < j < |FittedMonths(frame)|
    ensures Dense(Windows(frame)[i]) && Dense(Windows(frame)[j])
    ensures k < OD_SLOTS && Windows(frame)[i].odMedian[k].Some? ==> Windows(frame)[j].odMedian[k].Some?
    ensures k < PU_HOUR_SLOTS && Windows(frame)[i].puHourRate[k].Some? ==> Windows(frame)[j].puHourRate[k].Some?
  {
    hide MonthOf, OdMedian, PuHourRate, PuHourSpeed, FittedMonths, RowsOf;
    var ms := FittedMonths(frame);
    WindowHasMonths(frame, i);
    WindowHasMonths(frame, j);
    var v, w := RowsOf(frame, ms[..i + 1]), RowsOf(frame, ms[..j + 1]);
    forall trip | trip in v ensures trip in w {
      RowsOfMembers(frame, ms[..i + 1], trip);
      RowsOfMembers(frame, ms[..j + 1], trip);
      var x :| 0 <= x < i + 1 && ms[..i + 1][x] == MonthOf(trip.pickup);
      assert ms[..j + 1][x] == MonthOf(trip.pickup);
    }
    KnownStaysKnown(v, w, k);
  }

  lemma WindowsAreStacked(frame: Frame)
    ensures Publishable(Windows(frame))
    ensures Stacked(OdBlocks(Windows(frame))) && Stacked(PuHourBlocks(Windows(frame)))
  {
    hide FittedMonths, Windows, WindowStamp;
    WindowsArePublishable(frame);
    var ws := Windows(frame);
    var od, pu := OdBlocks(ws), PuHourBlocks(ws);
    forall i, j | 0 <= i < j < |ws| ensures od[i].stamp < od[j].stamp && pu[i].stamp < pu[j].stamp {
      StampOrder(frame, i, j);
    }
    forall i, j, k | 0 <= i < j < |ws| && 0 <= k < |od[i].dense| && od[i].dense[k].Some? ensures od[j].dense[k].Some? {
      WindowGrows(frame, i, j, k);
    }
    forall i, j, k | 0 <= i < j < |ws| && 0 <= k < |pu[i].dense| && pu[i].dense[k].Some? ensures pu[j].dense[k].Some? {
      WindowGrows(frame, i, j, k);
    }
  }

  lemma WindowsKnowable(frame: Frame, t: int)
    requires Publishable(Windows(frame))
    ensures var n := Below(FittedMonths(frame), MonthOf(t));
            KnowableUpTo(OdBlocks(Windows(frame)), n, t) && KnowableUpTo(PuHourBlocks(Windows(frame)), n, t)
  {
    hide FittedMonths, Windows, WindowStamp, MonthOf, Below;
    FittedMonthsAre(frame);
    BelowIsPrefix(FittedMonths(frame), MonthOf(t));
    forall i | 0 <= i < |Windows(frame)|
      ensures WindowStamp(Windows(frame)[i].months) <= t <==> FittedMonths(frame)[i] < MonthOf(t)
    {
      StampBegun(frame, i, t);
    }
  }

  // ------------------------------------------------------ what a join serves ---

  predicate IsOdKey(pu: int, dropoff: int) {
    0 <= pu <= MAX_ZONE_ID && 0 <= dropoff <= MAX_ZONE_ID
  }

  predicate IsPuHourKey(pu: int, hour: int) {
    0 <= pu <= MAX_ZONE_ID && 0 <= hour < HOURS
  }

  lemma NoMedianOfNothing(k: nat)
    ensures OdMedian([], k) == None && PuHourRate([], k) == None && PuHourSpeed([], k) == None
  {
  }

  /** The slot of a window's table is its statistic over the window's rows. */
  lemma WindowSlots(frame: Frame, i: nat)
    requires i < |FittedMonths(frame)|
    ensures Dense(Windows(frame)[i])
    ensures var w := RowsOf(frame, FittedMonths(frame)[..i + 1]);
            && (forall k :: 0 <= k < OD_SLOTS ==> Windows(frame)[i].odMedian[k] == OdMedian(w, k))
            && (forall k :: 0 <= k < PU_HOUR_SLOTS ==> Windows(frame)[i].puHourSpeed[k] == PuHourSpeed(w, k))
            && (forall k :: 0 <= k < PU_HOUR_SLOTS ==> Windows(frame)[i].puHourRate[k] == PuHourRate(w, k))
  {
    hide OdMedian, PuHourRate, PuHourSpeed, FittedMonths, RowsOf;
    WindowHasMonths(frame, i);
  }

  /** How many windows are knowable at an instant. */
  function Known(frame: Frame, t: int): (n: nat)
    ensures n <= |FittedMonths(frame)|
  {
    Below(FittedMonths(frame), MonthOf(t))
  }

  lemma OdBlockSlots(table: Tables, pu: int, dropoff: int)
    requires table.months != [] && Dense(table)
    ensures IsSlot(|OdBlock(table).dense|, ZONE_SLOTS, pu, dropoff) <==> IsOdKey(pu, dropoff)
    ensures IsOdKey(pu, dropoff) ==>
              OdBlock(table).dense[pu * ZONE_SLOTS + dropoff] == table.odMedian[pu * ZONE_SLOTS + dropoff]
  {
  }

  lemma PuHourBlockSlots(table: Tables, pu: int, hour: int)
    requires table.months != [] && Dense(table)
    ensures IsSlot(|PuHourBlock(table).dense|, HOURS, pu, hour) <==> IsPuHourKey(pu, hour)
    ensures IsPuHourKey(pu, hour) ==> PuHourBlock(table).dense[pu * HOURS + hour] == PuHourAt(table, pu * HOURS + hour)
  {
  }

  lemma OdJoinIsWindow(frame: Frame, pu: int, dropoff: int, t: int)
    ensures Publishable(Windows(frame))
    ensures StoreOd(frame, pu, dropoff, t) ==
            if Known(frame, t) > 0 && IsOdKey(pu, dropoff)
            then Windows(frame)[Known(frame, t) - 1].odMedian[pu * ZONE_SLOTS + dropoff] else None
  {
    hide FittedMonths, Windows, MonthOf, Below, Stacked, KnowableUpTo, OdBlock, IsOdKey, Publish, AsOf, IsSlot;
    WindowsAreStacked(frame);
    WindowsKnowable(frame, t);
    var n := Known(frame, t);
    JoinIsLatestWindow(OdBlocks(Windows(frame)), ZONE_SLOTS, n, pu, dropoff, t);
    if n > 0 {
      OdBlockSlots(Windows(frame)[n - 1], pu, dropoff);
    }
  }

  lemma PuHourJoinIsWindow(frame: Frame, pu: int, hour: int, t: int)
    ensures Publishable(Windows(frame))
    ensures StorePuHour(frame, pu, hour, t) ==
            if Known(frame, t) > 0 && IsPuHourKey(pu, hour)
            then PuHourAt(Windows(frame)[Known(frame, t) - 1], pu * HOURS + hour) else None
  {
    hide FittedMonths, Windows, MonthOf, Below, Stacked, KnowableUpTo, PuHourBlock, PuHourAt, IsPuHourKey, Publish,
         AsOf, IsSlot;
    WindowsAreStacked(frame);
    WindowsKnowable(frame, t);
    var n := Known(frame, t);
    JoinIsLatestWindow(PuHourBlocks(Windows(frame)), HOURS, n, pu, hour, t);
    if n > 0 {
      PuHourBlockSlots(Windows(frame)[n - 1], pu, hour);
    }
  }

  /** A window of no months would know nothing. */
  lemma NoHistory(frame: Frame, t: int)
    requires Known(frame, t) == 0
    ensures RowsBefore(frame, MonthOf(t)) == []
  {
    hide FittedMonths, Below, MonthOf, RowsOf, RowsBefore;
    HistoryIsPrefix(frame, MonthOf(t));
    assert FittedMonths(frame)[..0] == [];
    RowsOfNothing(frame);
  }

  /**
   At every instant, months fitted or not, the honest join serves a pair the median over
   exactly the trips dated before that instant's month, and nothing when there are none.
   */
  lemma OdJoinServesHistory(frame: Frame, pu: int, dropoff: int, t: int)
    ensures StoreOd(frame, pu, dropoff, t) ==
            if IsOdKey(pu, dropoff) then OdMedian(RowsBefore(frame, MonthOf(t)), pu * ZONE_SLOTS + dropoff) else None
  {
    hide FittedMonths, Windows, MonthOf, Below, OdMedian, RowsOf, RowsBefore, StoreOd;
    OdJoinIsWindow(frame, pu, dropoff, t);
    HistoryIsPrefix(frame, MonthOf(t));
    var n := Known(frame, t);
    if n > 0 {
      WindowSlots(frame, n - 1);
    } else {
      NoHistory(frame, t);
      if IsOdKey(pu, dropoff) { NoMedianOfNothing(pu * ZONE_SLOTS + dropoff); }
    }
  }

  function PuHourStats(w: Frame, k: nat): Option<PuHour> {
    match PuHourRate(w, k)
    case None => None
    case Some(rate) => Some(PuHour(PuHourSpeed(w, k), rate))
  }

  lemma PuHourJoinServesHistory(frame: Frame, pu: int, hour: int, t: int)
    ensures StorePuHour(frame, pu, hour, t) ==
            if IsPuHourKey(pu, hour) then PuHourStats(RowsBefore(frame, MonthOf(t)), pu * HOURS + hour) else None
  {
    hide FittedMonths, Windows, MonthOf, Below, PuHourRate, PuHourSpeed, RowsOf, RowsBefore, StorePuHour;
    PuHourJoinIsWindow(frame, pu, hour, t);
    HistoryIsPrefix(frame, MonthOf(t));
    var n := Known(frame, t);
    if n > 0 {
      WindowSlots(frame, n - 1);
    } else {
      NoHistory(frame, t);
      if IsPuHourKey(pu, hour) { NoMedianOfNothing(pu * HOURS + hour); }
    }
  }

  // ----------------------------------------------------------- no leakage ---

  /**
   Two trip sets that agree before a row's month give that row the same answers, whatever
   they hold in that month and later, and whatever months that makes them fit.
   */
  lemma NothingLeaks(frame: Frame, other: Frame, pu: int, dropoff: int, hour: int, t: int)
    requires RowsBefore(frame, MonthOf(t)) == RowsBefore(other, MonthOf(t))
    ensures StoreOd(frame, pu, dropoff, t) == StoreOd(other, pu, dropoff, t)
    ensures StorePuHour(frame, pu, hour, t) == StorePuHour(other, pu, hour, t)
  {
    hide MonthOf, OdMedian, PuHourStats, RowsBefore, StoreOd, StorePuHour;
    OdJoinServesHistory(frame, pu, dropoff, t);
    OdJoinServesHistory(other, pu, dropoff, t);
    PuHourJoinServesHistory(frame, pu, hour, t);
    PuHourJoinServesHistory(other, pu, hour, t);
  }
}
