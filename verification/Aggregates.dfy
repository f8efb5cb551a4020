/**
 The point-in-time aggregates of src/taxi_mlops/features/aggregates.py: `fit` builds one
 table per month cutoff, `transform` serves each row the table its month is entitled to.
 Values are exact reals; a missing value is None. Instants are whole seconds.
 */
module Aggregates {
  import opened Base
  import opened Calendar

  const MAX_ZONE_ID := 265
  const ZONE_SLOTS := 266
  const HOURS := 24
  const OD_SLOTS := ZONE_SLOTS * ZONE_SLOTS
  const PU_HOUR_SLOTS := ZONE_SLOTS * HOURS

  /** A train row; `distanceKm` is the haversine of its zones, missing without geometry. */
  datatype Trip = Trip(pickup: int, pu: int, dropoff: int, duration: Option<real>, distanceKm: Option<real>)

  type Frame = seq<Trip>

  function ClipId(zone: int): (id: nat)
    ensures id < ZONE_SLOTS
  {
    if 1 <= zone <= MAX_ZONE_ID then zone else 0
  }

  function HourOf(t: int): (h: nat)
    ensures h < HOURS
  {
    (t / 3600) % 24
  }

  function OdIndex(pu: int, dropoff: int): (k: nat)
    ensures k < OD_SLOTS
  {
    ClipId(pu) * ZONE_SLOTS + ClipId(dropoff)
  }

  function PuHourIndex(pu: int, t: int): (k: nat)
    ensures k < PU_HOUR_SLOTS
  {
    ClipId(pu) * HOURS + HourOf(t)
  }

  // ------------------------------------------------------------ statistics ---

  function InsertReal(r: real, s: seq<real>): seq<real> {
    if s == [] || r <= s[0] then [r] + s else [s[0]] + InsertReal(r, s[1..])
  }

  function SortReals(s: seq<real>): (t: seq<real>)
  {
    if s == [] then [] else InsertReal(s[0], SortReals(s[1..]))
  }

  lemma {:induction false} InsertLength(r: real, s: seq<real>)
    ensures |InsertReal(r, s)| == |s| + 1
  {
    if s != [] && s[0] < r { InsertLength(r, s[1..]); }
  }

  lemma {:induction false} SortLength(s: seq<real>)
    ensures |SortReals(s)| == |s|
  {
    if s != [] {
      SortLength(s[1..]);
      InsertLength(s[0], SortReals(s[1..]));
    }
  }

  ghost predicate SortedReals(s: seq<real>) {
    forall i, j :: 0 <= i <= j < |s| ==> s[i] <= s[j]
  }

  lemma {:induction false} InsertKeepsValues(r: real, s: seq<real>)
    ensures multiset(InsertReal(r, s)) == multiset(s) + multiset{r}
  {
    if s != [] {
      assert s == [s[0]] + s[1..];
      if s[0] < r { InsertKeepsValues(r, s[1..]); }
    }
  }

  ghost predicate AtLeast(low: real, s: seq<real>) {
    forall i :: 0 <= i < |s| ==> low <= s[i]
  }

  lemma {:induction false} InsertAtLeast(low: real, r: real, s: seq<real>)
    requires low <= r && AtLeast(low, s)
    ensures AtLeast(low, InsertReal(r, s))
  {
    if s != [] && s[0] < r { InsertAtLeast(low, r, s[1..]); }
  }

  lemma LeastFirst(low: real, s: seq<real>)
    requires AtLeast(low, s) && SortedReals(s)
    ensures SortedReals([low] + s)
  {
  }

  lemma {:induction false} InsertSorts(r: real, s: seq<real>)
    requires SortedReals(s)
    ensures SortedReals(InsertReal(r, s))
  {
    if s != [] {
      if s[0] < r {
        InsertSorts(r, s[1..]);
        InsertAtLeast(s[0], r, s[1..]);
        hide SortedReals, AtLeast;
        LeastFirst(s[0], InsertReal(r, s[1..]));
      } else {
        LeastFirst(r, s);
      }
    }
  }

  /** The median is read off the values in ascending order. */
  lemma {:induction false} SortRealsSorts(s: seq<real>)
    ensures SortedReals(SortReals(s)) && multiset(SortReals(s)) == multiset(s)
  {
    if s != [] {
      assert s == [s[0]] + s[1..];
      SortRealsSorts(s[1..]);
      InsertSorts(s[0], SortReals(s[1..]));
      InsertKeepsValues(s[0], SortReals(s[1..]));
    }
  }

  /** pandas' median; of no values, none. */
  function Median(s: seq<real>): Option<real> {
    if s == [] then None
    else
      SortLength(s);
      var t := SortReals(s);
      var h := |t| / 2;
      if |t| % 2 == 1 then Some(t[h]) else Some((t[h - 1] + t[h]) / 2.0)
  }

  function Sum(s: seq<real>): real {
    if s == [] then 0.0 else Sum(s[..|s| - 1]) + s[|s| - 1]
  }

  function Mean(s: seq<real>): Option<real> {
    if s == [] then None else Some(Sum(s) / (|s| as real))
  }

  // -------------------------------------------------------- one window's table ---

  /** The durations of an origin-destination pair, missing ones skipped. */
  function Durations(w: Frame, k: nat): seq<real> {
    if w == [] then []
    else
      var trip := w[|w| - 1];
      Durations(w[..|w| - 1], k) +
      if OdIndex(trip.pu, trip.dropoff) == k && trip.duration.Some? then [trip.duration.value] else []
  }

  function Speed(trip: Trip): Option<real> {
    if trip.duration.Some? && trip.duration.value > 0.0 && trip.distanceKm.Some?
    then Some(trip.distanceKm.value / (trip.duration.value / 60.0))
    else None
  }

  function Speeds(w: Frame, k: nat): seq<real> {
    if w == [] then []
    else
      var trip := w[|w| - 1];
      Speeds(w[..|w| - 1], k) +
      if PuHourIndex(trip.pu, trip.pickup) == k && Speed(trip).Some? then [Speed(trip).value] else []
  }

  function TripCount(w: Frame, k: nat): nat {
    if w == [] then 0
    else
      var trip := w[|w| - 1];
      TripCount(w[..|w| - 1], k) + if PuHourIndex(trip.pu, trip.pickup) == k then 1 else 0
  }

  function DaysSeen(w: Frame): nat {
    |set i | 0 <= i < |w| :: w[i].pickup / SECONDS_PER_DAY|
  }

  function OdMedian(w: Frame, k: nat): Option<real> {
    Median(Durations(w, k))
  }

  function PuHourSpeed(w: Frame, k: nat): Option<real> {
    Mean(Speeds(w, k))
  }

  /** Trips per distinct day of the window; a slot without trips has no rate. */
  function PuHourRate(w: Frame, k: nat): Option<real> {
    var days := DaysSeen(w);
    if TripCount(w, k) == 0 then None
    else Some(TripCount(w, k) as real / (if days > 1 then days else 1) as real)
  }

  datatype Tables = Tables(
    odMedian: seq<Option<real>>,
    puHourSpeed: seq<Option<real>>,
    puHourRate: seq<Option<real>>,
    months: seq<int>,
    rows: nat)

  function EmptyTables(): Tables {
    Tables(seq(OD_SLOTS, _ => None), seq(PU_HOUR_SLOTS, _ => None), seq(PU_HOUR_SLOTS, _ => None), [], 0)
  }

  function FitWindow(w: Frame, months: seq<int>): Tables {
    Tables(seq(OD_SLOTS, k requires 0 <= k => OdMedian(w, k)),
           seq(PU_HOUR_SLOTS, k requires 0 <= k => PuHourSpeed(w, k)),
           seq(PU_HOUR_SLOTS, k requires 0 <= k => PuHourRate(w, k)),
           months, |w|)
  }

  /** The rows whose month is one of the given months. */
  function RowsOf(frame: Frame, months: seq<int>): Frame {
    if frame == [] then []
    else
      var trip := frame[|frame| - 1];
      RowsOf(frame[..|frame| - 1], months) + if MonthOf(trip.pickup) in months then [trip] else []
  }

  function Window(frame: Frame, months: seq<int>): Tables {
    var w := RowsOf(frame, months);
    if w == [] then EmptyTables() else FitWindow(w, months)
  }

  // ----------------------------------------------------------------- fit ---

  ghost predicate Increasing(ms: seq<int>) {
    forall i, j :: 0 <= i < j < |ms| ==> ms[i] < ms[j]
  }

  function InsertMonth(m: int, ms: seq<int>): seq<int> {
    if ms == [] || m < ms[0] then [m] + ms
    else if m == ms[0] then ms
    else [ms[0]] + InsertMonth(m, ms[1..])
  }

  /** The distinct months of the frame, in order. */
  function FittedMonths(frame: Frame): seq<int> {
    if frame == [] then []
    else InsertMonth(MonthOf(frame[|frame| - 1].pickup), FittedMonths(frame[..|frame| - 1]))
  }

  lemma {:induction false} InsertMonthMembers(m: int, ms: seq<int>, x: int)
    ensures x in InsertMonth(m, ms) <==> x == m || x in ms
  {
    if ms != [] {
      assert ms == [ms[0]] + ms[1..];
      InsertMonthMembers(m, ms[1..], x);
    }
  }

  lemma {:induction false} InsertMonthKeeps(m: int, ms: seq<int>)
    requires Increasing(ms)
    ensures Increasing(InsertMonth(m, ms))
  {
    if ms != [] && ms[0] < m {
      var rest := InsertMonth(m, ms[1..]);
      InsertMonthKeeps(m, ms[1..]);
      forall j | 0 <= j < |rest| ensures ms[0] < rest[j] {
        InsertMonthMembers(m, ms[1..], rest[j]);
        assert rest[j] in rest;
      }
    }
  }

  lemma {:induction false} FittedMonthsAre(frame: Frame)
    ensures Increasing(FittedMonths(frame))
    ensures forall m :: m in FittedMonths(frame) <==> exists i :: 0 <= i < |frame| && MonthOf(frame[i].pickup) == m
  {
    hide MonthOf;
    if frame != [] {
      var init := frame[..|frame| - 1];
      FittedMonthsAre(init);
      InsertMonthKeeps(MonthOf(frame[|frame| - 1].pickup), FittedMonths(init));
      forall m ensures m in FittedMonths(frame) <==> exists i :: 0 <= i < |frame| && MonthOf(frame[i].pickup) == m {
        InsertMonthMembers(MonthOf(frame[|frame| - 1].pickup), FittedMonths(init), m);
        if m in FittedMonths(init) {
          var i :| 0 <= i < |init| && MonthOf(init[i].pickup) == m;
          assert MonthOf(frame[i].pickup) == m;
        }
      }
    }
  }

  /** The table served to each fitted month, and the one served to every other month. */
  datatype Fitted = Fitted(byMonth: map<int, Tables>, full: Tables, months: seq<int>)

  ghost predicate IsFit(f: Fitted, frame: Frame) {
    && f.months == FittedMonths(frame)
    && f.full == Window(frame, f.months)
    && (forall m :: m in f.byMonth <==> m in f.months)
    && forall i :: 0 <= i < |f.months| ==>
         f.months[i] in f.byMonth && f.byMonth[f.months[i]] == Window(frame, f.months[..i])
  }

  /** `fit` with point_in_time: train month k gets the table over the fitted months before it. */
  method Fit(frame: Frame) returns (f: Fitted)
    ensures IsFit(f, frame)
  {
    hide MonthOf, Window, FittedMonths, EmptyTables;
    FittedMonthsAre(frame);
    NoRowsOfNoMonths(frame);
    var fitted := FittedMonths(frame);
    var everything := Window(frame, fitted);
    var byMonth: map<int, Tables> := map[];
    for position := 0 to |fitted|
      invariant forall m :: m in byMonth <==> m in fitted[..position]
      invariant forall i :: 0 <= i < position ==>
                  fitted[i] in byMonth && byMonth[fitted[i]] == Window(frame, fitted[..i])
    {
      var month, history := fitted[position], fitted[..position];
      var table := if history == [] then EmptyTables() else Window(frame, history);
      byMonth := byMonth[month := table];
    }
    assert fitted[..|fitted|] == fitted;
    return Fitted(byMonth, everything, fitted);
  }

  lemma {:induction false} RowsOfNothing(frame: Frame)
    ensures RowsOf(frame, []) == []
  {
    if frame != [] { RowsOfNothing(frame[..|frame| - 1]); }
  }

  lemma NoRowsOfNoMonths(frame: Frame)
    ensures Window(frame, []) == EmptyTables()
  {
    RowsOfNothing(frame);
  }

  // ----------------------------------------------------------- transform ---

  datatype Served = Served(odMedian: Option<real>, puHourSpeed: Option<real>, puHourRate: Option<real>)

  function TableFor(f: Fitted, month: int): Tables {
    if month in f.byMonth then f.byMonth[month] else f.full
  }

  ghost predicate Dense(t: Tables) {
    |t.odMedian| == OD_SLOTS && |t.puHourSpeed| == |t.puHourRate| == PU_HOUR_SLOTS
  }

  lemma WindowIsDense(frame: Frame, months: seq<int>)
    ensures Dense(Window(frame, months))
  {
  }

  lemma FitIsDense(f: Fitted, frame: Frame, month: int)
    requires IsFit(f, frame)
    ensures Dense(TableFor(f, month))
  {
    hide Window, FittedMonths;
    WindowIsDense(frame, f.months);
    if month in f.byMonth {
      var i :| 0 <= i < |f.months| && f.months[i] == month;
      WindowIsDense(frame, f.months[..i]);
    }
  }

  /** `transform` on one row. */
  function Transform(f: Fitted, pu: int, dropoff: int, t: int): Served
    requires Dense(TableFor(f, MonthOf(t)))
  {
    var table := TableFor(f, MonthOf(t));
    var od, ph := OdIndex(pu, dropoff), PuHourIndex(pu, t);
    Served(table.odMedian[od], table.puHourSpeed[ph], table.puHourRate[ph])
  }

  // ------------------------------------------------------ growing windows ---

  /** What is known of a slot never becomes unknown when rows are added. */
  ghost predicate Grows(v: Frame, w: Frame) {
    forall trip :: trip in v ==> trip in w
  }

  lemma {:induction false} DurationsIff(w: Frame, k: nat)
    ensures Durations(w, k) != [] <==>
            exists trip :: trip in w && OdIndex(trip.pu, trip.dropoff) == k && trip.duration.Some?
  {
    hide OdIndex;
    if w != [] {
      DurationsIff(w[..|w| - 1], k);
      assert w == w[..|w| - 1] + [w[|w| - 1]];
    }
  }

  lemma {:induction false} SpeedsIff(w: Frame, k: nat)
    ensures Speeds(w, k) != [] <==>
            exists trip :: trip in w && PuHourIndex(trip.pu, trip.pickup) == k && Speed(trip).Some?
  {
    hide PuHourIndex, Speed;
    if w != [] {
      SpeedsIff(w[..|w| - 1], k);
      assert w == w[..|w| - 1] + [w[|w| - 1]];
    }
  }

  lemma {:induction false} TripCountIff(w: Frame, k: nat)
    ensures TripCount(w, k) != 0 <==> exists trip :: trip in w && PuHourIndex(trip.pu, trip.pickup) == k
  {
    hide PuHourIndex;
    if w != [] {
      TripCountIff(w[..|w| - 1], k);
      assert w == w[..|w| - 1] + [w[|w| - 1]];
    }
  }

  lemma {:induction false} SpeedsNeedTrips(w: Frame, k: nat)
    requires TripCount(w, k) == 0
    ensures Speeds(w, k) == []
  {
    hide PuHourIndex, Speed;
    if w != [] {
      SpeedsNeedTrips(w[..|w| - 1], k);
    }
  }

  /** What a table knows of a slot, a table over more rows knows too. */
  lemma KnownStaysKnown(v: Frame, w: Frame, k: nat)
    requires Grows(v, w)
    ensures OdMedian(v, k).Some? ==> OdMedian(w, k).Some?
    ensures PuHourSpeed(v, k).Some? ==> PuHourSpeed(w, k).Some?
    ensures PuHourRate(v, k).Some? ==> PuHourRate(w, k).Some?
  {
    hide OdIndex, PuHourIndex, SortReals, DaysSeen, Speed;
    SpeedsIff(v, k);
    SpeedsIff(w, k);
    DurationsIff(v, k);
    DurationsIff(w, k);
    TripCountIff(v, k);
    TripCountIff(w, k);
  }

  lemma {:induction false} RowsOfMembers(frame: Frame, months: seq<int>, trip: Trip)
    ensures trip in RowsOf(frame, months) <==> trip in frame && MonthOf(trip.pickup) in months
  {
    hide MonthOf;
    if frame != [] {
      RowsOfMembers(frame[..|frame| - 1], months, trip);
      assert frame == frame[..|frame| - 1] + [frame[|frame| - 1]];
    }
  }
}
