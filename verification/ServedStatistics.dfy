/**
 What the store and `transform` serve, said of the trips: which rows count for a slot, and
 that the three values are their median duration, their mean speed and their trips per day.
 */
module ServedStatistics {
  import opened Base
  import opened Calendar
  import opened Aggregates
  import opened FeastSources
  import opened PointInTime
  import opened LookupParity
  import opened WindowStatistics

  // ------------------------------------------------------------- the slots ---

  /** Ids outside 1..265 share one slot. */
  predicate SameZone(z: int, pu: int) {
    z == pu || (!(1 <= z <= 265) && !(1 <= pu <= 265))
  }

  lemma ClipIff(z: int, pu: int)
    ensures ClipId(z) == ClipId(pu) <==> SameZone(z, pu)
  {
  }

  /** Two pairs share a slot exactly when both their zones do. */
  lemma OdIndexIff(pu: int, dropoff: int, qu: int, other: int)
    ensures OdIndex(pu, dropoff) == OdIndex(qu, other) <==> SameZone(pu, qu) && SameZone(dropoff, other)
  {
    hide ClipId;
    ClipIff(pu, qu);
    ClipIff(dropoff, other);
  }

  predicate HourSpan(t: int, day: int, hour: int) {
    86400 * day + 3600 * hour <= t < 86400 * day + 3600 * (hour + 1)
  }

  /** The instant lies in that hour of some day. */
  ghost predicate InHour(t: int, hour: int) {
    exists day :: HourSpan(t, day, hour)
  }

  lemma HourIff(t: int, hour: int)
    requires 0 <= hour < 24
    ensures HourOf(t) == hour <==> InHour(t, hour)
  {
    assert HourSpan(t, t / 86400, HourOf(t));
    if day :| HourSpan(t, day, hour) {
      assert t / 3600 == 24 * day + hour;
    }
  }

  lemma PuHourIndexIff(pu: int, t: int, qu: int, u: int)
    ensures PuHourIndex(pu, t) == PuHourIndex(qu, u) <==> SameZone(pu, qu) && InHour(t, HourOf(u))
  {
    hide ClipId, HourOf, InHour;
    ClipIff(pu, qu);
    HourIff(t, HourOf(u));
  }

  // ------------------------------------------------------ the rows that count ---

  /** A row counts if it is dated before the month, when there is one. */
  predicate Counts(trip: Trip, before: Option<int>) {
    before.Some? ==> MonthOf(trip.pickup) < before.value
  }

  predicate OfPair(trip: Trip, before: Option<int>, pu: int, dropoff: int) {
    Counts(trip, before) && SameZone(trip.pu, pu) && SameZone(trip.dropoff, dropoff)
  }

  ghost predicate OfHour(trip: Trip, before: Option<int>, pu: int, hour: int) {
    Counts(trip, before) && SameZone(trip.pu, pu) && InHour(trip.pickup, hour)
  }

  /** The durations of the rows that count for a pair, row by row. */
  function PairColumn(frame: Frame, before: Option<int>, pu: int, dropoff: int): (c: Column)
    ensures |c| == |frame|
  {
    seq(|frame|, i requires 0 <= i < |frame| =>
      if OfPair(frame[i], before, pu, dropoff) then frame[i].duration else None)
  }

  /** The speeds of the rows that count for a zone and hour: kilometres over hours. */
  ghost predicate IsSpeed(v: Option<real>, trip: Trip, counts: bool) {
    if counts && trip.duration.Some? && trip.duration.value > 0.0 && trip.distanceKm.Some?
    then v.Some? && v.value * trip.duration.value == 60.0 * trip.distanceKm.value
    else v == None
  }

  ghost predicate IsSpeedColumn(c: Column, frame: Frame, before: Option<int>, pu: int, hour: int) {
    |c| == |frame| && forall i :: 0 <= i < |frame| ==> IsSpeed(c[i], frame[i], OfHour(frame[i], before, pu, hour))
  }

  ghost function TripsOf(frame: Frame, before: Option<int>, pu: int, hour: int): set<nat> {
    set i: nat | i < |frame| && OfHour(frame[i], before, pu, hour)
  }

  ghost predicate SeenOn(frame: Frame, before: Option<int>, day: int) {
    exists i :: 0 <= i < |frame| && Counts(frame[i], before) && 86400 * day <= frame[i].pickup < 86400 * (day + 1)
  }

  /** The days on which some row that counts, of whatever zone, was picked up. */
  ghost predicate AreDays(days: set<int>, frame: Frame, before: Option<int>) {
    forall day :: day in days <==> SeenOn(frame, before, day)
  }

  function RowsUpTo(frame: Frame, before: Option<int>): Frame {
    match before
    case None => frame
    case Some(month) => RowsBefore(frame, month)
  }

  lemma RowsUpToSnoc(init: Frame, trip: Trip, before: Option<int>)
    ensures RowsUpTo(init + [trip], before) ==
            if Counts(trip, before) then RowsUpTo(init, before) + [trip] else RowsUpTo(init, before)
  {
    hide MonthOf;
    assert (init + [trip])[..|init|] == init;
  }

  lemma DurationsSnoc(w: Frame, trip: Trip, k: nat)
    ensures Durations(w + [trip], k) ==
            if OdIndex(trip.pu, trip.dropoff) == k && trip.duration.Some?
            then Durations(w, k) + [trip.duration.value] else Durations(w, k)
  {
    hide OdIndex;
    assert (w + [trip])[..|w|] == w;
  }

  lemma ValuesSnoc(c: Column, v: Option<real>)
    ensures Values(c + [v]) == if v.Some? then Values(c) + [v.value] else Values(c)
  {
    assert (c + [v])[..|c|] == c;
  }

  lemma {:induction false} PairValues(frame: Frame, before: Option<int>, pu: int, dropoff: int)
    ensures Durations(RowsUpTo(frame, before), OdIndex(pu, dropoff)) == Values(PairColumn(frame, before, pu, dropoff))
  {
    hide OdIndex, Counts, SameZone, Durations, Values, RowsUpTo;
    if frame == [] {
      NoRows(before, OdIndex(pu, dropoff));
    } else {
      var init, trip := frame[..|frame| - 1], frame[|frame| - 1];
      assert frame == init + [trip];
      PairValues(init, before, pu, dropoff);
      RowsUpToSnoc(init, trip, before);
      if Counts(trip, before) { DurationsSnoc(RowsUpTo(init, before), trip, OdIndex(pu, dropoff)); }
      OdIndexIff(trip.pu, trip.dropoff, pu, dropoff);
      var v := if OfPair(trip, before, pu, dropoff) then trip.duration else None;
      ValuesSnoc(PairColumn(init, before, pu, dropoff), v);
      assert PairColumn(frame, before, pu, dropoff) == PairColumn(init, before, pu, dropoff) + [v];
    }
  }

  lemma NoRows(before: Option<int>, k: nat)
    ensures RowsUpTo([], before) == [] && Durations([], k) == [] && Speeds([], k) == [] && Values([]) == []
  {
  }

  /** The median of a slot is that of the rows that count for the pair. */
  lemma OdMedianIff(frame: Frame, before: Option<int>, pu: int, dropoff: int, m: real)
    ensures OdMedian(RowsUpTo(frame, before), OdIndex(pu, dropoff)) == Some(m) <==>
            IsMedianOf(PairColumn(frame, before, pu, dropoff), m)
  {
    hide OdIndex, PairColumn, RowsUpTo, Durations, Values, Median, IsMedianOf;
    PairValues(frame, before, pu, dropoff);
    MedianIff(PairColumn(frame, before, pu, dropoff), m);
  }

  // --------------------------------------------------------------- the speed ---

  lemma SpeedsSnoc(w: Frame, trip: Trip, k: nat)
    ensures Speeds(w + [trip], k) ==
            if PuHourIndex(trip.pu, trip.pickup) == k && Speed(trip).Some?
            then Speeds(w, k) + [Speed(trip).value] else Speeds(w, k)
  {
    hide PuHourIndex, Speed;
    assert (w + [trip])[..|w|] == w;
  }

  lemma SpeedIs(trip: Trip, v: Option<real>)
    requires IsSpeed(v, trip, true)
    ensures Speed(trip) == v
  {
    if v.Some? {
      var d, km := trip.duration.value, trip.distanceKm.value;
      var s := km / (d / 60.0);
      assert s * (d / 60.0) == km;
      assert s * d == 60.0 * (s * (d / 60.0));
      SameQuotient(s, v.value, d);
    }
  }

  lemma SameQuotient(a: real, b: real, d: real)
    requires d > 0.0 && a * d == b * d
    ensures a == b
  {
    assert a == a * d / d;
    assert b == b * d / d;
  }

  lemma {:induction false} HourValues(frame: Frame, before: Option<int>, pu: int, t: int, c: Column)
    requires IsSpeedColumn(c, frame, before, pu, HourOf(t))
    ensures Speeds(RowsUpTo(frame, before), PuHourIndex(pu, t)) == Values(c)
  {
    hide PuHourIndex, Counts, SameZone, InHour, Speeds, Speed, Values, RowsUpTo, HourOf, IsSpeed;
    if frame == [] {
      NoRows(before, PuHourIndex(pu, t));
    } else {
      var n := |frame| - 1;
      var init, trip, v := frame[..n], frame[n], c[n];
      assert frame == init + [trip] && c == c[..n] + [v];
      HourValues(init, before, pu, t, c[..n]);
      RowsUpToSnoc(init, trip, before);
      if Counts(trip, before) { SpeedsSnoc(RowsUpTo(init, before), trip, PuHourIndex(pu, t)); }
      PuHourIndexIff(trip.pu, trip.pickup, pu, t);
      ValuesSnoc(c[..n], v);
      SpeedWhere(trip, v, OfHour(trip, before, pu, HourOf(t)));
    }
  }

  lemma SpeedWhere(trip: Trip, v: Option<real>, counts: bool)
    requires IsSpeed(v, trip, counts)
    ensures v == if counts then Speed(trip) else None
  {
    hide Speed;
    if counts { SpeedIs(trip, v); }
  }

  lemma SpeedIff(frame: Frame, before: Option<int>, pu: int, t: int, c: Column, m: real)
    requires IsSpeedColumn(c, frame, before, pu, HourOf(t))
    ensures PuHourSpeed(RowsUpTo(frame, before), PuHourIndex(pu, t)) == Some(m) <==> IsMeanOf(c, m)
  {
    hide PuHourIndex, RowsUpTo, Speeds, Values, Mean, IsMeanOf, HourOf, IsSpeedColumn;
    HourValues(frame, before, pu, t, c);
    MeanIff(c, m);
  }

  // ---------------------------------------------------------------- the rate ---

  lemma TripCountSnoc(w: Frame, trip: Trip, k: nat)
    ensures TripCount(w + [trip], k) == TripCount(w, k) + if PuHourIndex(trip.pu, trip.pickup) == k then 1 else 0
  {
    hide PuHourIndex;
    assert (w + [trip])[..|w|] == w;
  }

  lemma {:induction false} CountIs(frame: Frame, before: Option<int>, pu: int, t: int)
    ensures TripCount(RowsUpTo(frame, before), PuHourIndex(pu, t)) == |TripsOf(frame, before, pu, HourOf(t))|
  {
    hide PuHourIndex, Counts, SameZone, InHour, RowsUpTo, HourOf;
    if frame == [] {
      NoRows(before, 0);
      assert TripsOf([], before, pu, HourOf(t)) == {};
    } else {
      var n := |frame| - 1;
      var init, trip := frame[..n], frame[n];
      assert frame == init + [trip];
      CountIs(init, before, pu, t);
      RowsUpToSnoc(init, trip, before);
      PuHourIndexIff(trip.pu, trip.pickup, pu, t);
      if Counts(trip, before) { TripCountSnoc(RowsUpTo(init, before), trip, PuHourIndex(pu, t)); }
      TripsSnoc(init, trip, before, pu, HourOf(t));
    }
  }

  lemma TripsSnoc(init: Frame, trip: Trip, before: Option<int>, pu: int, hour: int)
    ensures |TripsOf(init + [trip], before, pu, hour)| ==
            |TripsOf(init, before, pu, hour)| + if OfHour(trip, before, pu, hour) then 1 else 0
  {
    hide OfHour;
    assert TripsOf(init + [trip], before, pu, hour) ==
           TripsOf(init, before, pu, hour) + if OfHour(trip, before, pu, hour) then {|init|} else {};
  }

  lemma RowsUpToMembers(frame: Frame, before: Option<int>, trip: Trip)
    ensures trip in RowsUpTo(frame, before) <==> trip in frame && Counts(trip, before)
  {
    hide MonthOf, RowsBefore;
    if before.Some? { RowsBeforeMembers(frame, before.value, trip); }
  }

  lemma DaysAre(frame: Frame, before: Option<int>, days: set<int>)
    requires AreDays(days, frame, before)
    ensures DaysSeen(RowsUpTo(frame, before)) == |days|
  {
    hide Counts, RowsUpTo;
    var w := RowsUpTo(frame, before);
    var seen := set i | 0 <= i < |w| :: w[i].pickup / SECONDS_PER_DAY;
    forall day ensures day in seen <==> day in days {
      assert day in days <==> SeenOn(frame, before, day);
      if day in seen {
        var i :| 0 <= i < |w| && w[i].pickup / SECONDS_PER_DAY == day;
        RowsUpToMembers(frame, before, w[i]);
        var j :| 0 <= j < |frame| && frame[j] == w[i];
        assert 86400 * day <= frame[j].pickup < 86400 * (day + 1);
      }
      if i :| 0 <= i < |frame| && Counts(frame[i], before) && 86400 * day <= frame[i].pickup < 86400 * (day + 1) {
        RowsUpToMembers(frame, before, frame[i]);
        var j :| 0 <= j < |w| && w[j] == frame[i];
        assert w[j].pickup / SECONDS_PER_DAY == day;
      }
    }
    assert seen == days;
  }

  /** Rate times days is the number of trips, and there is a rate just where there is a trip. */
  ghost predicate IsRateOf(rate: real, trips: set<nat>, days: set<int>) {
    trips != {} && rate * (|days| as real) == |trips| as real
  }

  lemma RateIff(frame: Frame, before: Option<int>, pu: int, t: int, days: set<int>, rate: real)
    requires AreDays(days, frame, before)
    ensures PuHourRate(RowsUpTo(frame, before), PuHourIndex(pu, t)) == Some(rate) <==>
            IsRateOf(rate, TripsOf(frame, before, pu, HourOf(t)), days)
  {
    hide PuHourIndex, RowsUpTo, DaysSeen, TripCount, TripsOf, AreDays, HourOf;
    CountIs(frame, before, pu, t);
    DaysAre(frame, before, days);
    var trips := TripsOf(frame, before, pu, HourOf(t));
    if trips != {} {
      SomeDay(frame, before, pu, HourOf(t), days);
      QuotientIff(|trips| as real, |days| as real, rate);
    }
  }

  lemma SomeDay(frame: Frame, before: Option<int>, pu: int, hour: int, days: set<int>)
    requires AreDays(days, frame, before) && TripsOf(frame, before, pu, hour) != {}
    ensures |days| > 0
  {
    var i :| i in TripsOf(frame, before, pu, hour);
    var day := frame[i].pickup / 86400;
    assert SeenOn(frame, before, day);
    assert day in days;
  }

  // -------------------------------------------------------- what is served ---

  /** The join serves a pair the median duration of its trips dated before the instant's month. */
  lemma StoredOdIsMedian(frame: Frame, pu: int, dropoff: int, t: int, m: real)
    ensures StoreOd(frame, pu, dropoff, t) == Some(m) <==>
            && 0 <= pu <= 265 && 0 <= dropoff <= 265
            && IsMedianOf(PairColumn(frame, Some(MonthOf(t)), pu, dropoff), m)
  {
    hide MonthOf, StoreOd, OdMedian, RowsBefore, PairColumn, IsMedianOf, OdIndex;
    OdJoinServesHistory(frame, pu, dropoff, t);
    if IsOdKey(pu, dropoff) {
      SlotOfKey(pu, dropoff, t);
      OdMedianIff(frame, Some(MonthOf(t)), pu, dropoff, m);
    }
  }

  /** The rows a lookup is computed from: all of them, unless a row is of the instant's month. */
  ghost function HistoryOf(frame: Frame, t: int): Option<int> {
    if exists i :: 0 <= i < |frame| && MonthOf(frame[i].pickup) == MonthOf(t) then Some(MonthOf(t)) else None
  }

  lemma LookupRowsAre(frame: Frame, t: int)
    ensures LookupRows(frame, t) == RowsUpTo(frame, HistoryOf(frame, t))
  {
    hide MonthOf, FittedMonths, RowsBefore;
    FittedMonthsAre(frame);
  }

  /** `transform` serves a pair the median duration of those rows of it. */
  lemma ServedOdIsMedian(frame: Frame, pu: int, dropoff: int, t: int, m: real)
    ensures Lookup(frame, pu, dropoff, t).odMedian == Some(m) <==>
            IsMedianOf(PairColumn(frame, HistoryOf(frame, t), pu, dropoff), m)
  {
    hide MonthOf, Lookup, OdMedian, RowsUpTo, LookupRows, PairColumn, IsMedianOf, OdIndex, HistoryOf;
    LookupServes(frame, pu, dropoff, t);
    LookupRowsAre(frame, t);
    OdMedianIff(frame, HistoryOf(frame, t), pu, dropoff, m);
  }

  /** `transform` serves a zone and hour the mean speed of those rows and their trips per day. */
  lemma ServedPuHourIs(frame: Frame, pu: int, dropoff: int, t: int, hour: int, speeds: Column, days: set<int>)
    requires 0 <= hour < 24 && InHour(t, hour)
    requires IsSpeedColumn(speeds, frame, HistoryOf(frame, t), pu, hour) && AreDays(days, frame, HistoryOf(frame, t))
    ensures forall v :: Lookup(frame, pu, dropoff, t).puHourSpeed == Some(v) <==> IsMeanOf(speeds, v)
    ensures forall r :: Lookup(frame, pu, dropoff, t).puHourRate == Some(r) <==>
                        IsRateOf(r, TripsOf(frame, HistoryOf(frame, t), pu, hour), days)
  {
    hide MonthOf, Lookup, PuHourSpeed, PuHourRate, RowsUpTo, LookupRows, IsMeanOf, IsRateOf, PuHourIndex, HistoryOf;
    hide IsSpeedColumn, AreDays, TripsOf, HourOf, InHour;
    HourIff(t, hour);
    LookupServes(frame, pu, dropoff, t);
    LookupRowsAre(frame, t);
    forall v ensures Lookup(frame, pu, dropoff, t).puHourSpeed == Some(v) <==> IsMeanOf(speeds, v) {
      SpeedIff(frame, HistoryOf(frame, t), pu, t, speeds, v);
    }
    forall r
      ensures Lookup(frame, pu, dropoff, t).puHourRate == Some(r) <==>
              IsRateOf(r, TripsOf(frame, HistoryOf(frame, t), pu, hour), days)
    {
      RateIff(frame, HistoryOf(frame, t), pu, t, days, r);
    }
  }

  /**
   The join serves a zone and hour, which has any row at all before the instant's month, the
   mean speed of those rows and their trips per day.
   */
  lemma StoredPuHourIs(frame: Frame, pu: int, hour: int, t: int, speeds: Column, days: set<int>)
    requires 0 <= pu <= 265 && 0 <= hour < 24
    requires IsSpeedColumn(speeds, frame, Some(MonthOf(t)), pu, hour) && AreDays(days, frame, Some(MonthOf(t)))
    ensures forall v :: SpeedOf(StorePuHour(frame, pu, hour, t)) == Some(v) <==> IsMeanOf(speeds, v)
    ensures forall r :: RateOf(StorePuHour(frame, pu, hour, t)) == Some(r) <==>
                        IsRateOf(r, TripsOf(frame, Some(MonthOf(t)), pu, hour), days)
  {
    hide MonthOf, StorePuHour, PuHourSpeed, PuHourRate, RowsBefore, IsMeanOf, IsRateOf, PuHourIndex;
    hide IsSpeedColumn, AreDays, TripsOf, HourOf;
    var before := Some(MonthOf(t));
    var w, u := RowsBefore(frame, MonthOf(t)), 3600 * hour;
    assert HourOf(u) == hour by { HourOfDay(hour); }
    PuHourJoinServesHistory(frame, pu, hour, t);
    SlotOfKey(pu, 0, u);
    SpeedNeedsRate(w, pu * HOURS + hour);
    assert RowsUpTo(frame, before) == w;
    forall v ensures PuHourSpeed(w, pu * HOURS + hour) == Some(v) <==> IsMeanOf(speeds, v) {
      SpeedIff(frame, before, pu, u, speeds, v);
    }
    forall r
      ensures PuHourRate(w, pu * HOURS + hour) == Some(r) <==> IsRateOf(r, TripsOf(frame, before, pu, hour), days)
    {
      RateIff(frame, before, pu, u, days, r);
    }
  }

  lemma HourOfDay(hour: int)
    requires 0 <= hour < 24
    ensures HourOf(3600 * hour) == hour
  {
  }

  // --------------------------------------------------- what a table records ---

  lemma {:induction false} RowsBeforeCount(frame: Frame, month: int)
    ensures |RowsBefore(frame, month)| == |set i: nat | i < |frame| && MonthOf(frame[i].pickup) < month|
  {
    hide MonthOf;
    var here := set i: nat | i < |frame| && MonthOf(frame[i].pickup) < month;
    if frame == [] {
      assert here == {};
    } else {
      var n := |frame| - 1;
      var init := frame[..n];
      RowsBeforeCount(init, month);
      var there := set i: nat | i < |init| && MonthOf(init[i].pickup) < month;
      assert here == there + if MonthOf(frame[n].pickup) < month then {n} else {};
    }
  }

  /** Each table records how many rows it was built from, and of which months. */
  lemma TableRecords(frame: Frame, t: int)
    ensures var table, before := TableFor(FitOf(frame), MonthOf(t)), HistoryOf(frame, t);
            && table.rows == |set i: nat | i < |frame| && Counts(frame[i], before)|
            && Increasing(table.months)
            && forall m :: m in table.months <==>
                 exists i :: 0 <= i < |frame| && Counts(frame[i], before) && MonthOf(frame[i].pickup) == m
  {
    hide MonthOf, FittedMonths, Below, RowsOf, RowsBefore, FitOf, Window, Counts;
    var before, months := HistoryOf(frame, t), LookupMonths(frame, t);
    TableRows(frame, t);
    LookupRowsAre(frame, t);
    RowsUpToCount(frame, before);
    LookupMonthsAre(frame, t);
    WindowRecords(frame, months);
    if RowsOf(frame, months) == [] {
      forall i | 0 <= i < |frame| ensures !Counts(frame[i], before) {
        RowsUpToMembers(frame, before, frame[i]);
      }
    }
  }

  lemma WindowRecords(frame: Frame, months: seq<int>)
    ensures Window(frame, months).rows == |RowsOf(frame, months)|
    ensures Window(frame, months).months == if RowsOf(frame, months) == [] then [] else months
  {
    hide RowsOf;
  }

  lemma RowsUpToCount(frame: Frame, before: Option<int>)
    ensures |RowsUpTo(frame, before)| == |set i: nat | i < |frame| && Counts(frame[i], before)|
  {
    hide MonthOf, RowsBefore;
    match before
    case Some(month) =>
      RowsBeforeCount(frame, month);
      assert (set i: nat | i < |frame| && Counts(frame[i], before)) ==
             (set i: nat | i < |frame| && MonthOf(frame[i].pickup) < month);
    case None => AllRowsCount(frame);
  }

  lemma {:induction false} AllRowsCount(frame: Frame)
    ensures |set i: nat | i < |frame| && Counts(frame[i], None)| == |frame|
  {
    var here := set i: nat | i < |frame| && Counts(frame[i], None);
    if frame == [] {
      assert here == {};
    } else {
      var n := |frame| - 1;
      var init := frame[..n];
      AllRowsCount(init);
      assert here == (set i: nat | i < |init| && Counts(init[i], None)) + {n};
    }
  }

  lemma LookupMonthsAre(frame: Frame, t: int)
    ensures var before, months := HistoryOf(frame, t), LookupMonths(frame, t);
            && Increasing(months)
            && forall m :: m in months <==>
                 exists i :: 0 <= i < |frame| && Counts(frame[i], before) && MonthOf(frame[i].pickup) == m
  {
    hide MonthOf, FittedMonths, Below;
    FittedMonthsAre(frame);
    var ms, month := FittedMonths(frame), MonthOf(t);
    BelowIsPrefix(ms, month);
    var months := LookupMonths(frame, t);
    forall m ensures m in months <==> m in ms && (month in ms ==> m < month) {
      if m in ms {
        var j :| 0 <= j < |ms| && ms[j] == m;
        if month in ms && j < Below(ms, month) { assert months[j] == m; }
      }
    }
  }
}
