/**
 When the honest join is the lookup that `transform` makes, and what the naive timestamp
 and the month boundaries do to it.
 */
module LookupParity {
  import opened Base
  import opened Calendar
  import opened Aggregates
  import opened FeatureStore
  import opened FeastSources
  import opened PointInTime

  // -------------------------------------------------------- the feature path ---

  lemma {:induction false} BelowIsIndex(ms: seq<int>, m: int, i: nat)
    requires Increasing(ms) && i < |ms| && ms[i] == m
    ensures Below(ms, m) == i
  {
    var n := |ms| - 1;
    if i < n {
      BelowIsIndex(ms[..n], m, i);
      assert ms[i] < ms[n];
    } else {
      AllBelow(ms[..n], m);
    }
  }

  lemma {:induction false} AllBelow(ms: seq<int>, m: int)
    requires forall i :: 0 <= i < |ms| ==> ms[i] < m
    ensures Below(ms, m) == |ms|
  {
    if ms != [] { AllBelow(ms[..|ms| - 1], m); }
  }

  /** The fit of a frame as a value. */
  function FitOf(frame: Frame): (f: Fitted) {
    var ms := FittedMonths(frame);
    Fitted(map m | m in ms :: Window(frame, ms[..Below(ms, m)]), Window(frame, ms), ms)
  }

  lemma FitOfIsFit(frame: Frame)
    ensures IsFit(FitOf(frame), frame)
  {
    hide Window, FittedMonths, Below;
    FittedMonthsAre(frame);
    var ms := FittedMonths(frame);
    forall i | 0 <= i < |ms| ensures ms[i] in ms && Below(ms, ms[i]) == i {
      BelowIsIndex(ms, ms[i], i);
    }
  }

  /** The rows a lookup at an instant is computed from. */
  function LookupRows(frame: Frame, t: int): Frame {
    if MonthOf(t) in FittedMonths(frame) then RowsBefore(frame, MonthOf(t)) else frame
  }

  lemma {:induction false} AllRows(frame: Frame, months: seq<int>)
    requires forall i :: 0 <= i < |frame| ==> MonthOf(frame[i].pickup) in months
    ensures RowsOf(frame, months) == frame
  {
    hide MonthOf;
    if frame != [] {
      var init, last := frame[..|frame| - 1], frame[|frame| - 1];
      assert MonthOf(last.pickup) in months;
      AllRows(init, months);
      assert frame == init + [last];
    }
  }

  /** The fitted months whose rows a lookup at an instant is computed from. */
  function LookupMonths(frame: Frame, t: int): seq<int> {
    var ms := FittedMonths(frame);
    if MonthOf(t) in ms then ms[..Below(ms, MonthOf(t))] else ms
  }

  lemma TableRows(frame: Frame, t: int)
    ensures TableFor(FitOf(frame), MonthOf(t)) == Window(frame, LookupMonths(frame, t))
    ensures RowsOf(frame, LookupMonths(frame, t)) == LookupRows(frame, t)
  {
    hide Window, FittedMonths, MonthOf, Below, RowsOf, RowsBefore, FitOf;
    var ms, m := FittedMonths(frame), MonthOf(t);
    FitOfIsFit(frame);
    FittedMonthsAre(frame);
    BelowIsPrefix(ms, m);
    if m in ms {
      var i :| 0 <= i < |ms| && ms[i] == m;
      BelowIsIndex(ms, m, i);
      HistoryIsPrefix(frame, m);
    } else {
      AllRows(frame, ms);
    }
  }

  lemma WindowSlotsOf(frame: Frame, months: seq<int>)
    ensures Dense(Window(frame, months))
    ensures forall k :: 0 <= k < OD_SLOTS ==> Window(frame, months).odMedian[k] == OdMedian(RowsOf(frame, months), k)
    ensures forall k :: 0 <= k < PU_HOUR_SLOTS ==>
              Window(frame, months).puHourSpeed[k] == PuHourSpeed(RowsOf(frame, months), k)
    ensures forall k :: 0 <= k < PU_HOUR_SLOTS ==>
              Window(frame, months).puHourRate[k] == PuHourRate(RowsOf(frame, months), k)
  {
    hide RowsOf;
  }

  /** `transform` on the fit of a frame. */
  function Lookup(frame: Frame, pu: int, dropoff: int, t: int): Served {
    FitOfIsFit(frame);
    FitIsDense(FitOf(frame), frame, MonthOf(t));
    Transform(FitOf(frame), pu, dropoff, t)
  }

  /** A fitted month is served its history; every other month all the rows, even those after it. */
  lemma LookupServes(frame: Frame, pu: int, dropoff: int, t: int)
    ensures var w := LookupRows(frame, t);
            var s := Lookup(frame, pu, dropoff, t);
            && s.odMedian == OdMedian(w, OdIndex(pu, dropoff))
            && s.puHourSpeed == PuHourSpeed(w, PuHourIndex(pu, t))
            && s.puHourRate == PuHourRate(w, PuHourIndex(pu, t))
  {
    hide Window, FittedMonths, MonthOf, Below, RowsOf, LookupRows, OdMedian, PuHourSpeed, PuHourRate, OdIndex,
         PuHourIndex, FitOf;
    var ms := FittedMonths(frame);
    var months := if MonthOf(t) in ms then ms[..Below(ms, MonthOf(t))] else ms;
    TableRows(frame, t);
    WindowSlotsOf(frame, months);
  }

  // ------------------------------------------------------ join and lookup agree ---

  ghost predicate OdAgrees(frame: Frame, pu: int, dropoff: int, t: int) {
    StoreOd(frame, pu, dropoff, t) == Lookup(frame, pu, dropoff, t).odMedian
  }

  function SpeedOf(p: Option<PuHour>): Option<real> {
    if p.Some? then p.value.speed else None
  }

  function RateOf(p: Option<PuHour>): Option<real> {
    if p.Some? then Some(p.value.rate) else None
  }

  ghost predicate PuHourAgrees(frame: Frame, pu: int, t: int) {
    var served := Lookup(frame, pu, 0, t);
    var stored := StorePuHour(frame, pu, HourOf(t), t);
    SpeedOf(stored) == served.puHourSpeed && RateOf(stored) == served.puHourRate
  }

  /** A month whose lookup never sees itself or later: a fitted one, or one after them all. */
  predicate Covered(ms: seq<int>, month: int)
    requires ms != []
  {
    month in ms || ms[|ms| - 1] < month
  }

  lemma RowsBeforeAll(frame: Frame, month: int)
    requires forall m :: m in FittedMonths(frame) ==> m < month
    ensures RowsBefore(frame, month) == frame
  {
    hide MonthOf, FittedMonths;
    FittedMonthsAre(frame);
    forall i | 0 <= i < |frame| ensures MonthOf(frame[i].pickup) < month {
      assert MonthOf(frame[i].pickup) in FittedMonths(frame);
    }
    RowsBeforeWhole(frame, month);
  }

  lemma {:induction false} RowsBeforeWhole(frame: Frame, month: int)
    requires forall i :: 0 <= i < |frame| ==> MonthOf(frame[i].pickup) < month
    ensures RowsBefore(frame, month) == frame
  {
    hide MonthOf;
    if frame != [] {
      RowsBeforeWhole(frame[..|frame| - 1], month);
      assert MonthOf(frame[|frame| - 1].pickup) < month;
    }
  }

  lemma RowsBeforeFirst(frame: Frame, month: int)
    requires FittedMonths(frame) != [] && month <= FittedMonths(frame)[0]
    ensures RowsBefore(frame, month) == []
  {
    hide MonthOf, FittedMonths, Below, RowsBefore, RowsOf;
    FittedMonthsAre(frame);
    BelowIsPrefix(FittedMonths(frame), month);
    HistoryIsPrefix(frame, month);
    assert Below(FittedMonths(frame), month) == 0;
    assert FittedMonths(frame)[..0] == [];
    RowsOfNothing(frame);
  }

  lemma CoveredRows(frame: Frame, t: int)
    requires FittedMonths(frame) != [] && Covered(FittedMonths(frame), MonthOf(t))
    ensures LookupRows(frame, t) == RowsBefore(frame, MonthOf(t))
  {
    hide MonthOf, FittedMonths, RowsBefore;
    FittedMonthsAre(frame);
    var ms := FittedMonths(frame);
    if MonthOf(t) !in ms {
      forall m | m in ms ensures m < MonthOf(t) {
        var i :| 0 <= i < |ms| && ms[i] == m;
        if i < |ms| - 1 { assert ms[i] < ms[|ms| - 1]; }
      }
      RowsBeforeAll(frame, MonthOf(t));
    }
  }

  lemma SlotOfKey(pu: int, dropoff: int, t: int)
    ensures IsOdKey(pu, dropoff) ==> OdIndex(pu, dropoff) == pu * ZONE_SLOTS + dropoff
    ensures 0 <= pu <= MAX_ZONE_ID ==> PuHourIndex(pu, t) == pu * HOURS + HourOf(t)
  {
    hide HourOf;
  }

  lemma JoinIsLookupWhenCovered(frame: Frame, pu: int, dropoff: int, t: int)
    requires FittedMonths(frame) != [] && Covered(FittedMonths(frame), MonthOf(t))
    ensures IsOdKey(pu, dropoff) ==> OdAgrees(frame, pu, dropoff, t)
    ensures 0 <= pu <= MAX_ZONE_ID ==> PuHourAgrees(frame, pu, t)
  {
    hide MonthOf, FittedMonths, RowsBefore, LookupRows, OdMedian, PuHourSpeed, PuHourRate, OdIndex, PuHourIndex,
         Lookup, StoreOd, StorePuHour, HourOf;
    CoveredRows(frame, t);
    LookupServes(frame, pu, dropoff, t);
    LookupServes(frame, pu, 0, t);
    OdJoinServesHistory(frame, pu, dropoff, t);
    PuHourJoinServesHistory(frame, pu, HourOf(t), t);
    SlotOfKey(pu, dropoff, t);
    if 0 <= pu <= MAX_ZONE_ID {
      SpeedNeedsRate(RowsBefore(frame, MonthOf(t)), pu * HOURS + HourOf(t));
    }
  }

  lemma SpeedNeedsRate(w: Frame, k: nat)
    ensures PuHourRate(w, k).None? ==> PuHourSpeed(w, k).None?
  {
    hide DaysSeen;
    if TripCount(w, k) == 0 { SpeedsNeedTrips(w, k); }
  }

  /** In the first fitted month neither side has anything to say. */
  lemma FirstMonthKnowsNothing(frame: Frame, pu: int, dropoff: int, t: int)
    requires FittedMonths(frame) != [] && MonthOf(t) == FittedMonths(frame)[0]
    ensures StoreOd(frame, pu, dropoff, t) == None && Lookup(frame, pu, dropoff, t) == Served(None, None, None)
    ensures OdAgrees(frame, pu, dropoff, t) && PuHourAgrees(frame, pu, t)
  {
    hide MonthOf, FittedMonths, RowsBefore, OdMedian, PuHourSpeed, PuHourRate, OdIndex, PuHourIndex,
         Lookup, StoreOd, StorePuHour, HourOf;
    RowsBeforeFirst(frame, MonthOf(t));
    LookupServes(frame, pu, dropoff, t);
    LookupServes(frame, pu, 0, t);
    OdJoinServesHistory(frame, pu, dropoff, t);
    PuHourJoinServesHistory(frame, pu, HourOf(t), t);
    NoMedianOfNothing(OdIndex(pu, dropoff));
    NoMedianOfNothing(PuHourIndex(pu, t));
    if IsOdKey(pu, dropoff) { NoMedianOfNothing(pu * ZONE_SLOTS + dropoff); }
    if IsPuHourKey(pu, HourOf(t)) { NoMedianOfNothing(pu * HOURS + HourOf(t)); }
  }

  // ------------------------------------------------------------- witnesses ---

  /** A zone whose slot is not pu's. */
  function Elsewhere(pu: int): int {
    if ClipId(pu) == 1 then 2 else 1
  }

  /** One trip a month; the j-th starts at pu, the others elsewhere. */
  function WitnessTrip(ms: seq<int>, j: nat, pu: int, dropoff: int, hour: nat, i: nat): Trip
    requires i < |ms|
  {
    Trip(StartOf(ms[i]) + 3600 * hour, if i == j then pu else Elsewhere(pu), dropoff, Some(1.0), None)
  }

  function Witness(ms: seq<int>, j: nat, pu: int, dropoff: int, hour: nat): (frame: Frame)
    ensures |frame| == |ms|
    ensures forall i :: 0 <= i < |ms| ==> frame[i] == WitnessTrip(ms, j, pu, dropoff, hour, i)
  {
    seq(|ms|, i requires 0 <= i < |ms| => WitnessTrip(ms, j, pu, dropoff, hour, i))
  }

  lemma HourOfMonth(m: int, hour: nat)
    requires hour < HOURS
    ensures MonthOf(StartOf(m) + 3600 * hour) == m
    ensures HourOf(StartOf(m) + 3600 * hour) == hour
  {
    hide FirstDay, SearchUp, SearchDown;
    var t := StartOf(m) + 3600 * hour;
    BegunIff(m, t);
    StartsIncrease(m, m + 1);
    BegunIff(m + 1, t);
    assert t / 3600 == 24 * FirstDay(m) + hour;
  }

  lemma {:induction false} IncreasingIsUnique(ms: seq<int>, ns: seq<int>)
    requires Increasing(ms) && Increasing(ns)
    requires forall m :: m in ms <==> m in ns
    ensures ms == ns
  {
    assert ns != [] ==> ns[0] in ns;
    assert ms != [] ==> ms[|ms| - 1] in ms;
    if ms != [] {
      assert ms[|ms| - 1] in ns;
      var a, b := |ms| - 1, |ns| - 1;
      assert ns[b] in ms;
      assert ms[a] == ns[b];
      forall m ensures m in ms[..a] <==> m in ns[..b] {
        if m in ms[..a] { assert m in ms && m < ms[a]; }
        if m in ns[..b] { assert m in ns && m < ns[b]; }
      }
      IncreasingIsUnique(ms[..a], ns[..b]);
      assert ms == ms[..a] + [ms[a]] && ns == ns[..b] + [ns[b]];
    }
  }

  lemma WitnessMonths(ms: seq<int>, j: nat, pu: int, dropoff: int, hour: nat)
    requires Increasing(ms) && hour < HOURS
    ensures FittedMonths(Witness(ms, j, pu, dropoff, hour)) == ms
    ensures forall i :: 0 <= i < |ms| ==> MonthOf(Witness(ms, j, pu, dropoff, hour)[i].pickup) == ms[i]
  {
    hide StartOf, MonthOf, FittedMonths, Witness, HourOf;
    var frame := Witness(ms, j, pu, dropoff, hour);
    forall i | 0 <= i < |ms| ensures MonthOf(frame[i].pickup) == ms[i] {
      HourOfMonth(ms[i], hour);
    }
    FittedMonthsAre(frame);
    forall m ensures m in FittedMonths(frame) <==> m in ms {
      if m in ms {
        var i :| 0 <= i < |ms| && ms[i] == m;
        assert MonthOf(frame[i].pickup) == m;
      }
    }
    IncreasingIsUnique(FittedMonths(frame), ms);
  }

  lemma {:induction false} RowsBeforeMembers(frame: Frame, month: int, trip: Trip)
    ensures trip in RowsBefore(frame, month) <==> trip in frame && MonthOf(trip.pickup) < month
  {
    hide MonthOf;
    if frame != [] {
      RowsBeforeMembers(frame[..|frame| - 1], month, trip);
      assert frame == frame[..|frame| - 1] + [frame[|frame| - 1]];
    }
  }

  lemma KnownFromTrip(w: Frame, trip: Trip)
    requires trip in w && trip.duration.Some?
    ensures OdMedian(w, OdIndex(trip.pu, trip.dropoff)).Some?
    ensures PuHourRate(w, PuHourIndex(trip.pu, trip.pickup)).Some?
  {
    hide OdIndex, PuHourIndex, DaysSeen;
    DurationsIff(w, OdIndex(trip.pu, trip.dropoff));
    TripCountIff(w, PuHourIndex(trip.pu, trip.pickup));
  }

  /** The lookup of a key the j-th month's trip has, in a month that sees that month. */
  lemma WitnessIsSeen(ms: seq<int>, j: nat, pu: int, dropoff: int, t: int)
    requires Increasing(ms) && j < |ms|
    requires ms[j] < MonthOf(t) || MonthOf(t) !in ms
    ensures var served := Lookup(Witness(ms, j, pu, dropoff, HourOf(t)), pu, dropoff, t);
            served.odMedian.Some? && served.puHourRate.Some?
  {
    hide StartOf, MonthOf, FittedMonths, Witness, HourOf, Lookup, OdIndex, ClipId, RowsBefore, OdMedian, PuHourRate,
         PuHourSpeed;
    var frame := Witness(ms, j, pu, dropoff, HourOf(t));
    var trip := frame[j];
    WitnessMonths(ms, j, pu, dropoff, HourOf(t));
    LookupServes(frame, pu, dropoff, t);
    RowsBeforeMembers(frame, MonthOf(t), trip);
    HourOfMonth(ms[j], HourOf(t));
    KnownFromTrip(LookupRows(frame, t), trip);
  }

  lemma UnknownWithoutTrip(w: Frame, pu: int, dropoff: int, t: int)
    requires forall trip :: trip in w ==> ClipId(trip.pu) != ClipId(pu)
    ensures OdMedian(w, OdIndex(pu, dropoff)) == None
    ensures PuHourRate(w, PuHourIndex(pu, t)) == None
  {
    hide ClipId, HourOf, DaysSeen;
    DurationsIff(w, OdIndex(pu, dropoff));
    TripCountIff(w, PuHourIndex(pu, t));
    forall trip | trip in w
      ensures OdIndex(trip.pu, trip.dropoff) != OdIndex(pu, dropoff) &&
              PuHourIndex(trip.pu, trip.pickup) != PuHourIndex(pu, t)
    {
      SlotsDiffer(trip.pu, trip.dropoff, pu, dropoff);
      HourSlotsDiffer(trip.pu, trip.pickup, pu, t);
    }
  }

  lemma SlotsDiffer(pu: int, dropoff: int, qu: int, drop2: int)
    requires ClipId(pu) != ClipId(qu)
    ensures OdIndex(pu, dropoff) != OdIndex(qu, drop2)
  {
    hide ClipId;
  }

  lemma HourSlotsDiffer(pu: int, t: int, qu: int, u: int)
    requires ClipId(pu) != ClipId(qu)
    ensures PuHourIndex(pu, t) != PuHourIndex(qu, u)
  {
    hide ClipId, HourOf;
  }

  /** The join has nothing for a key that only the last month's trip has, before that month ends. */
  lemma WitnessIsHidden(ms: seq<int>, pu: int, dropoff: int, t: int)
    requires Increasing(ms) && ms != [] && MonthOf(t) <= ms[|ms| - 1]
    ensures var frame := Witness(ms, |ms| - 1, pu, dropoff, HourOf(t));
            && (IsOdKey(pu, dropoff) ==> StoreOd(frame, pu, dropoff, t) == None)
            && (0 <= pu <= MAX_ZONE_ID ==> StorePuHour(frame, pu, HourOf(t), t) == None)
  {
    hide StartOf, MonthOf, FittedMonths, Witness, HourOf, StoreOd, StorePuHour, OdIndex, PuHourIndex, RowsBefore,
         OdMedian,         PuHourRate, PuHourSpeed;
    var n := |ms| - 1;
    var frame := Witness(ms, n, pu, dropoff, HourOf(t));
    var w := RowsBefore(frame, MonthOf(t));
    WitnessMonths(ms, n, pu, dropoff, HourOf(t));
    forall trip | trip in w ensures ClipId(trip.pu) != ClipId(pu) {
      RowsBeforeMembers(frame, MonthOf(t), trip);
      var i :| 0 <= i < |frame| && frame[i] == trip;
      assert MonthOf(frame[i].pickup) == ms[i];
    }
    UnknownWithoutTrip(w, pu, dropoff, t);
    OdJoinServesHistory(frame, pu, dropoff, t);
    PuHourJoinServesHistory(frame, pu, HourOf(t), t);
    SlotOfKey(pu, dropoff, t);
  }

  // ----------------------------------------------------------- exactly when ---

  /** The keys and months for which the join is the lookup whatever the trips are. */
  predicate OdEntitled(ms: seq<int>, pu: int, dropoff: int, month: int)
    requires ms != []
  {
    month == ms[0] || (IsOdKey(pu, dropoff) && Covered(ms, month))
  }

  predicate PuHourEntitled(ms: seq<int>, pu: int, month: int)
    requires ms != []
  {
    month == ms[0] || (0 <= pu <= MAX_ZONE_ID && Covered(ms, month))
  }

  /**
   The honest join equals the feature path's own lookup for every trip set that fits the
   given months exactly when the row is of the first month, or has in-range zones and is of
   a fitted month or of one after the last. In a gap between fitted months, or before
   them, the lookup serves the full table and the join does not.
   */
  lemma OdJoinIsLookupIff(ms: seq<int>, pu: int, dropoff: int, t: int)
    requires Increasing(ms) && ms != []
    ensures (forall frame :: FittedMonths(frame) == ms ==> OdAgrees(frame, pu, dropoff, t))
       <==> OdEntitled(ms, pu, dropoff, MonthOf(t))
  {
    hide StartOf, MonthOf, FittedMonths, Witness, HourOf, StoreOd, Lookup, IsOdKey;
    if OdEntitled(ms, pu, dropoff, MonthOf(t)) {
      forall frame | FittedMonths(frame) == ms ensures OdAgrees(frame, pu, dropoff, t) {
        if MonthOf(t) == ms[0] {
          FirstMonthKnowsNothing(frame, pu, dropoff, t);
        } else {
          JoinIsLookupWhenCovered(frame, pu, dropoff, t);
        }
      }
    } else if IsOdKey(pu, dropoff) {
      var frame := Witness(ms, |ms| - 1, pu, dropoff, HourOf(t));
      WitnessMonths(ms, |ms| - 1, pu, dropoff, HourOf(t));
      WitnessIsHidden(ms, pu, dropoff, t);
      WitnessIsSeen(ms, |ms| - 1, pu, dropoff, t);
      assert !OdAgrees(frame, pu, dropoff, t);
    } else {
      var frame := Witness(ms, 0, pu, dropoff, HourOf(t));
      WitnessMonths(ms, 0, pu, dropoff, HourOf(t));
      FirstOrLater(ms, MonthOf(t));
      WitnessIsSeen(ms, 0, pu, dropoff, t);
      OdJoinServesHistory(frame, pu, dropoff, t);
      assert !OdAgrees(frame, pu, dropoff, t);
    }
  }

  lemma FirstOrLater(ms: seq<int>, month: int)
    requires Increasing(ms) && ms != [] && month != ms[0]
    ensures ms[0] < month || month !in ms
  {
  }

  lemma PuHourJoinIsLookupIff(ms: seq<int>, pu: int, t: int)
    requires Increasing(ms) && ms != []
    ensures (forall frame :: FittedMonths(frame) == ms ==> PuHourAgrees(frame, pu, t))
       <==> PuHourEntitled(ms, pu, MonthOf(t))
  {
    hide StartOf, MonthOf, FittedMonths, Witness, HourOf, StorePuHour, Lookup;
    if PuHourEntitled(ms, pu, MonthOf(t)) {
      forall frame | FittedMonths(frame) == ms ensures PuHourAgrees(frame, pu, t) {
        if MonthOf(t) == ms[0] {
          FirstMonthKnowsNothing(frame, pu, 0, t);
        } else {
          JoinIsLookupWhenCovered(frame, pu, 0, t);
        }
      }
    } else if 0 <= pu <= MAX_ZONE_ID {
      var frame := Witness(ms, |ms| - 1, pu, 0, HourOf(t));
      WitnessMonths(ms, |ms| - 1, pu, 0, HourOf(t));
      WitnessIsHidden(ms, pu, 0, t);
      WitnessIsSeen(ms, |ms| - 1, pu, 0, t);
      assert !PuHourAgrees(frame, pu, t);
    } else {
      var frame := Witness(ms, 0, pu, 0, HourOf(t));
      WitnessMonths(ms, 0, pu, 0, HourOf(t));
      FirstOrLater(ms, MonthOf(t));
      WitnessIsSeen(ms, 0, pu, 0, t);
      PuHourJoinServesHistory(frame, pu, HourOf(t), t);
      assert !PuHourAgrees(frame, pu, t);
    }
  }

  // --------------------------------------------------- the naive timestamp ---

  /** `naive_timestamp`: the first instant after the last train month. */
  function NaiveTimestamp(trainMonths: seq<int>): int
    requires trainMonths != []
  {
    StartOf(trainMonths[|trainMonths| - 1] + 1)
  }

  /** It is the very first instant of the month after. */
  lemma NaiveIsFirstAfter(trainMonths: seq<int>)
    requires trainMonths != []
    ensures var last, naive := trainMonths[|trainMonths| - 1], NaiveTimestamp(trainMonths);
            MonthOf(naive) == last + 1 && MonthOf(naive - 1) == last
  {
    hide StartOf, MonthOf;
    var last, naive := trainMonths[|trainMonths| - 1], NaiveTimestamp(trainMonths);
    MonthOfStart(last + 1);
    StartsIncrease(last, last + 1);
    BegunIff(last, naive - 1);
    BegunIff(last + 1, naive - 1);
  }

  /**
   Sending every row the naive timestamp serves it the full window, key by key: the answer
   is the statistic over all the trips, the row's own month and later included, and it is
   what the lookup of a row moved past the fitted months gives.
   */
  lemma NaiveServesFullWindow(frame: Frame, trainMonths: seq<int>, pu: int, dropoff: int)
    requires trainMonths != [] && frame != []
    requires forall m :: m in FittedMonths(frame) ==> m <= trainMonths[|trainMonths| - 1]
    requires IsOdKey(pu, dropoff)
    ensures var naive := NaiveTimestamp(trainMonths);
            && StoreOd(frame, pu, dropoff, naive) == OdMedian(frame, pu * ZONE_SLOTS + dropoff)
            && OdAgrees(frame, pu, dropoff, naive)
            && forall hour :: 0 <= hour < HOURS ==>
                 StorePuHour(frame, pu, hour, naive) == PuHourStats(frame, pu * HOURS + hour)
  {
    hide StartOf, MonthOf, FittedMonths, StoreOd, StorePuHour, Lookup, OdMedian, PuHourStats, RowsBefore, OdAgrees,
         PuHourAgrees;
    var naive := NaiveTimestamp(trainMonths);
    MonthOfStart(trainMonths[|trainMonths| - 1] + 1);
    RowsBeforeAll(frame, MonthOf(naive));
    OdJoinServesHistory(frame, pu, dropoff, naive);
    NoMonthsNoFrame(frame);
    LastIsMember(FittedMonths(frame));
    JoinIsLookupWhenCovered(frame, pu, dropoff, naive);
    forall hour | 0 <= hour < HOURS
      ensures StorePuHour(frame, pu, hour, naive) == PuHourStats(frame, pu * HOURS + hour)
    {
      PuHourJoinServesHistory(frame, pu, hour, naive);
    }
  }

  lemma LastIsMember(ms: seq<int>)
    requires ms != []
    ensures ms[|ms| - 1] in ms
  {
  }

  // --------------------------------------------------------- month boundaries ---

  /** Whatever the join serves at t comes from the window of the fitted months before t's. */
  lemma WindowServed(frame: Frame, pu: int, dropoff: int, t: int)
    requires AsOf(OdSource(frame), pu, dropoff, t).Some?
    ensures AsOf(OdSource(frame), pu, dropoff, t).value.window == FittedMonths(frame)[..Known(frame, t)]
  {
    hide FittedMonths, Windows, MonthOf, Below, Stacked, KnowableUpTo, Publish, AsOf, IsSlot, WindowStamp;
    WindowsAreStacked(frame);
    WindowsKnowable(frame, t);
    var n := Known(frame, t);
    JoinIsLatestWindow(OdBlocks(Windows(frame)), ZONE_SLOTS, n, pu, dropoff, t);
    WindowAt(frame, n - 1);
  }

  /** So does a row of the zone and hour. */
  lemma PuHourWindowServed(frame: Frame, pu: int, hour: int, t: int)
    requires AsOf(PuHourSource(frame), pu, hour, t).Some?
    ensures AsOf(PuHourSource(frame), pu, hour, t).value.window == FittedMonths(frame)[..Known(frame, t)]
  {
    hide FittedMonths, Windows, MonthOf, Below, Stacked, KnowableUpTo, Publish, AsOf, IsSlot, WindowStamp;
    WindowsAreStacked(frame);
    WindowsKnowable(frame, t);
    var n := Known(frame, t);
    JoinIsLatestWindow(PuHourBlocks(Windows(frame)), HOURS, n, pu, hour, t);
    WindowAt(frame, n - 1);
  }

  lemma {:induction false} BelowSteps(ms: seq<int>, month: int)
    requires Increasing(ms)
    ensures Below(ms, month + 1) == Below(ms, month) + if month in ms then 1 else 0
  {
    if ms != [] {
      var init, last := ms[..|ms| - 1], ms[|ms| - 1];
      BelowSteps(init, month);
      assert ms == init + [last];
      assert last == month ==> month !in init;
    }
  }

  /**
   Two instants on either side of a month's end are served different windows exactly when
   that month was fitted: the later one knows one month more.
   */
  lemma BoundaryWindows(frame: Frame, before: int, after: int)
    requires MonthOf(after) == MonthOf(before) + 1
    ensures Known(frame, after) == Known(frame, before) + if MonthOf(before) in FittedMonths(frame) then 1 else 0
  {
    hide MonthOf, FittedMonths;
    FittedMonthsAre(frame);
    BelowSteps(FittedMonths(frame), MonthOf(before));
  }
}
