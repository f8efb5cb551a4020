/**
 The historical retrieval gate (scripts/feast_retrieval.py) over the whole path: the honest
 join's answer, aligned, against the feature path's own lookup.
 */
module RetrievalGate {
  import opened Base
  import opened Calendar
  import opened Aggregates
  import opened FeatureStore
  import opened FeastSources
  import opened PointInTime
  import opened LookupParity
  import opened FeastRetrieval

  // ------------------------------------------------- historical retrieval ---

  function MinStamp<V>(rows: seq<SourceRow<V>>): (m: int)
    requires rows != []
    ensures forall r :: r in rows ==> m <= r.stamp
    ensures exists r :: r in rows && r.stamp == m
  {
    var last := rows[|rows| - 1];
    assert rows == rows[..|rows| - 1] + [last];
    if |rows| == 1 then last.stamp
    else
      var m := MinStamp(rows[..|rows| - 1]);
      if m <= last.stamp then m else last.stamp
  }

  function LookupColumn(frame: Frame, entities: seq<Entity>): (column: Column<real>)
    ensures |column| == |entities|
  {
    seq(|entities|,
        i requires 0 <= i < |entities| => Lookup(frame, entities[i].a, entities[i].b, entities[i].ts).odMedian)
  }

  /** What the honest join over a frame holds for a signature of either view. */
  function OdStore(frame: Frame): Signature -> Option<real> {
    (s: Signature) => StoreOd(frame, s.a, s.b, s.ts)
  }

  function PuHourStore(frame: Frame): Signature -> Option<PuHour> {
    (s: Signature) => StorePuHour(frame, s.a, s.b, s.ts)
  }

  /** Every declared row is one whose lookup sees its own past only. */
  ghost predicate OdRowsEntitled(frame: Frame, entities: seq<Entity>)
    requires FittedMonths(frame) != []
  {
    forall e :: e in entities ==> OdEntitled(FittedMonths(frame), e.a, e.b, MonthOf(e.ts))
  }

  lemma LookupIsOdStore(frame: Frame, entities: seq<Entity>)
    requires FittedMonths(frame) != [] && OdRowsEntitled(frame, entities)
    ensures forall i :: 0 <= i < |entities| ==>
              LookupColumn(frame, entities)[i] == OdStore(frame)(SignatureOf(entities[i]))
  {
    hide StoreOd, Lookup, FittedMonths, MonthOf, OdEntitled;
    FittedMonthsAre(frame);
    forall i | 0 <= i < |entities|
      ensures LookupColumn(frame, entities)[i] == OdStore(frame)(SignatureOf(entities[i]))
    {
      var e := entities[i];
      assert e in entities;
      OdJoinIsLookupIff(FittedMonths(frame), e.a, e.b, e.ts);
      assert OdAgrees(frame, e.a, e.b, e.ts);
    }
  }

  /**
   The od_window column of the retrieval gate: for an honest answer about rows whose lookup
   sees their own past only, it has no mismatch at tolerance zero, missing values included,
   if and only if every row the join has a value for was answered under its signature.
   */
  lemma RetrievalHasNoMismatchIff(frame: Frame, entities: seq<Entity>, answers: seq<Answer<real>>)
    requires FittedMonths(frame) != [] && OdRowsEntitled(frame, entities)
    requires Honest(entities, answers, OdStore(frame))
    ensures BadRows(LookupColumn(frame, entities), Aligned(entities, answers), IdsOf(entities)) == [] <==>
            AllValuesAnswered(entities, answers, OdStore(frame))
  {
    hide Honest, FittedMonths, LookupColumn, Aligned, OdRowsEntitled, AllValuesAnswered, OdStore;
    LookupIsOdStore(frame, entities);
    AlignedIsStoreIff(entities, answers, OdStore(frame));
    NoBadRowsIff(LookupColumn(frame, entities), Aligned(entities, answers), IdsOf(entities));
  }

  /** In particular it has none when no declared row is left unexplained. */
  lemma RetrievalHasNoMismatch(frame: Frame, entities: seq<Entity>, answers: seq<Answer<real>>)
    requires OdSource(frame) != [] && FittedMonths(frame) != [] && OdRowsEntitled(frame, entities)
    requires DistinctIds(entities) && Honest(entities, answers, OdStore(frame))
    requires ShortfallOf(entities, answers, MinStamp(OdSource(frame))).unexplained == []
    ensures BadRows(LookupColumn(frame, entities), Aligned(entities, answers), IdsOf(entities)) == []
  {
    hide DistinctIds, Honest, ShortfallOf, OdSource, StoreOd, FittedMonths, OdRowsEntitled, LookupColumn, Aligned;
    hide AllValuesAnswered;
    var earliest := MinStamp(OdSource(frame));
    forall s: Signature | s.ts < earliest ensures OdStore(frame)(s) == None {
      NothingBeforeFirst(frame, s.a, s.b, s.ts);
    }
    ExplainedIsAnswered(entities, answers, earliest, OdStore(frame));
    RetrievalHasNoMismatchIff(frame, entities, answers);
  }

  lemma NothingBeforeFirst(frame: Frame, a: int, b: int, t: int)
    requires OdSource(frame) != [] && t < MinStamp(OdSource(frame))
    ensures StoreOd(frame, a, b, t) == None
  {
    hide OdSource;
    AsOfIsLatest(OdSource(frame), a, b, t);
  }

  function SpeedLookupColumn(frame: Frame, entities: seq<Entity>): (column: Column<real>)
    ensures |column| == |entities|
  {
    seq(|entities|, i requires 0 <= i < |entities| => Lookup(frame, entities[i].a, 0, entities[i].ts).puHourSpeed)
  }

  function RateLookupColumn(frame: Frame, entities: seq<Entity>): (column: Column<real>)
    ensures |column| == |entities|
  {
    seq(|entities|, i requires 0 <= i < |entities| => Lookup(frame, entities[i].a, 0, entities[i].ts).puHourRate)
  }

  /** The two feature columns of an aligned pu_hour answer. */
  function SpeedColumn(column: Column<PuHour>): (speeds: Column<real>)
    ensures |speeds| == |column|
  {
    seq(|column|, i requires 0 <= i < |column| => SpeedOf(column[i]))
  }

  function RateColumn(column: Column<PuHour>): (rates: Column<real>)
    ensures |rates| == |column|
  {
    seq(|column|, i requires 0 <= i < |column| => RateOf(column[i]))
  }

  /** A row of the pu_hour view is keyed on its zone and on the hour of its own timestamp. */
  ghost predicate KeyedByHour(entities: seq<Entity>) {
    forall e :: e in entities ==> e.b == HourOf(e.ts)
  }

  ghost predicate PuHourRowsEntitled(frame: Frame, entities: seq<Entity>)
    requires FittedMonths(frame) != []
  {
    KeyedByHour(entities) && forall e :: e in entities ==> PuHourEntitled(FittedMonths(frame), e.a, MonthOf(e.ts))
  }

  lemma LookupIsPuHourStore(frame: Frame, entities: seq<Entity>)
    requires FittedMonths(frame) != [] && PuHourRowsEntitled(frame, entities)
    ensures forall i :: 0 <= i < |entities| ==>
              var stored := PuHourStore(frame)(SignatureOf(entities[i]));
              SpeedLookupColumn(frame, entities)[i] == SpeedOf(stored) &&
              RateLookupColumn(frame, entities)[i] == RateOf(stored)
  {
    hide StorePuHour, Lookup, FittedMonths, MonthOf, HourOf, PuHourEntitled;
    FittedMonthsAre(frame);
    forall i | 0 <= i < |entities|
      ensures SpeedLookupColumn(frame, entities)[i] == SpeedOf(PuHourStore(frame)(SignatureOf(entities[i])))
      ensures RateLookupColumn(frame, entities)[i] == RateOf(PuHourStore(frame)(SignatureOf(entities[i])))
    {
      var e := entities[i];
      assert e in entities;
      PuHourJoinIsLookupIff(FittedMonths(frame), e.a, e.ts);
      assert PuHourAgrees(frame, e.a, e.ts);
    }
  }

  /** Every row that the join has a speed for was answered; a known slot may have none. */
  ghost predicate AllSpeedsAnswered(entities: seq<Entity>, answers: seq<Answer<PuHour>>,
                                    store: Signature -> Option<PuHour>) {
    forall e :: e in entities && SpeedOf(store(SignatureOf(e))).Some? ==>
      SignatureOf(e) in AnsweredSignatures(entities, answers)
  }

  ghost predicate RatesAlign(entities: seq<Entity>, column: Column<PuHour>, store: Signature -> Option<PuHour>)
    requires |column| == |entities|
  {
    forall i :: 0 <= i < |entities| ==> RateOf(column[i]) == RateOf(store(SignatureOf(entities[i])))
  }

  ghost predicate SpeedsAlign(entities: seq<Entity>, column: Column<PuHour>, store: Signature -> Option<PuHour>)
    requires |column| == |entities|
  {
    forall i :: 0 <= i < |entities| ==> SpeedOf(column[i]) == SpeedOf(store(SignatureOf(entities[i])))
  }

  lemma SpeedsAreValues(entities: seq<Entity>, answers: seq<Answer<PuHour>>, store: Signature -> Option<PuHour>)
    requires AllValuesAnswered(entities, answers, store)
    ensures AllSpeedsAnswered(entities, answers, store)
  {
    hide AnsweredSignatures;
  }

  lemma ColumnsAlignIff(entities: seq<Entity>, answers: seq<Answer<PuHour>>, store: Signature -> Option<PuHour>)
    requires Honest(entities, answers, store)
    ensures RatesAlign(entities, Aligned(entities, answers), store) <==> AllValuesAnswered(entities, answers, store)
    ensures SpeedsAlign(entities, Aligned(entities, answers), store) <==> AllSpeedsAnswered(entities, answers, store)
  {
    RatesAlignIff(entities, answers, store);
    SpeedsAlignIff(entities, answers, store);
  }

  lemma RatesAlignIff(entities: seq<Entity>, answers: seq<Answer<PuHour>>, store: Signature -> Option<PuHour>)
    requires Honest(entities, answers, store)
    ensures RatesAlign(entities, Aligned(entities, answers), store) <==> AllValuesAnswered(entities, answers, store)
  {
    hide Honest, AnsweredSignatures, FirstAnswer, SignatureOf, Aligned;
    var column := Aligned(entities, answers);
    forall i | 0 <= i < |entities|
      ensures RateOf(column[i]) == RateOf(store(SignatureOf(entities[i]))) <==>
              column[i] == store(SignatureOf(entities[i]))
    {
      ValueOrNothing(entities, answers, store, i);
    }
    AlignedIsStoreIff(entities, answers, store);
  }

  lemma ValueOrNothing(entities: seq<Entity>, answers: seq<Answer<PuHour>>, store: Signature -> Option<PuHour>, i: nat)
    requires Honest(entities, answers, store) && i < |entities|
    ensures var value, s := Aligned(entities, answers)[i], SignatureOf(entities[i]);
            value == if s in AnsweredSignatures(entities, answers) then store(s) else None
  {
    hide Honest, AnsweredSignatures, FirstAnswer, SignatureOf;
    FirstAnswerIs(entities, answers, store, SignatureOf(entities[i]));
  }

  lemma SpeedsAlignIff(entities: seq<Entity>, answers: seq<Answer<PuHour>>, store: Signature -> Option<PuHour>)
    requires Honest(entities, answers, store)
    ensures SpeedsAlign(entities, Aligned(entities, answers), store) <==> AllSpeedsAnswered(entities, answers, store)
  {
    hide Honest, AnsweredSignatures, FirstAnswer, SignatureOf, Aligned;
    var column := Aligned(entities, answers);
    if SpeedsAlign(entities, column, store) {
      forall e | e in entities && SpeedOf(store(SignatureOf(e))).Some?
        ensures SignatureOf(e) in AnsweredSignatures(entities, answers)
      {
        var i :| 0 <= i < |entities| && entities[i] == e;
        ValueOrNothing(entities, answers, store, i);
      }
    }
    if AllSpeedsAnswered(entities, answers, store) {
      forall i | 0 <= i < |entities| ensures SpeedOf(column[i]) == SpeedOf(store(SignatureOf(entities[i]))) {
        assert entities[i] in entities;
        ValueOrNothing(entities, answers, store, i);
      }
    }
  }

  /** The two pu_hour_window columns of the retrieval gate, under the same terms. */
  lemma PuHourRetrievalHasNoMismatchIff(frame: Frame, entities: seq<Entity>, answers: seq<Answer<PuHour>>)
    requires FittedMonths(frame) != [] && PuHourRowsEntitled(frame, entities)
    requires Honest(entities, answers, PuHourStore(frame))
    ensures var stored := Aligned(entities, answers);
            && (BadRows(RateLookupColumn(frame, entities), RateColumn(stored), IdsOf(entities)) == [] <==>
                AllValuesAnswered(entities, answers, PuHourStore(frame)))
            && (BadRows(SpeedLookupColumn(frame, entities), SpeedColumn(stored), IdsOf(entities)) == [] <==>
                AllSpeedsAnswered(entities, answers, PuHourStore(frame)))
  {
    hide Honest, FittedMonths, SpeedLookupColumn, RateLookupColumn, Aligned, PuHourRowsEntitled, AllValuesAnswered;
    hide PuHourStore, AllSpeedsAnswered;
    var stored := Aligned(entities, answers);
    LookupIsPuHourStore(frame, entities);
    ColumnsAlignIff(entities, answers, PuHourStore(frame));
    NoBadRowsIff(RateLookupColumn(frame, entities), RateColumn(stored), IdsOf(entities));
    NoBadRowsIff(SpeedLookupColumn(frame, entities), SpeedColumn(stored), IdsOf(entities));
  }

  /** In particular neither has a mismatch when no declared row is left unexplained. */
  lemma PuHourRetrievalHasNoMismatch(frame: Frame, entities: seq<Entity>, answers: seq<Answer<PuHour>>)
    requires PuHourSource(frame) != [] && FittedMonths(frame) != [] && PuHourRowsEntitled(frame, entities)
    requires DistinctIds(entities) && Honest(entities, answers, PuHourStore(frame))
    requires ShortfallOf(entities, answers, MinStamp(PuHourSource(frame))).unexplained == []
    ensures var stored := Aligned(entities, answers);
            && BadRows(SpeedLookupColumn(frame, entities), SpeedColumn(stored), IdsOf(entities)) == []
            && BadRows(RateLookupColumn(frame, entities), RateColumn(stored), IdsOf(entities)) == []
  {
    hide DistinctIds, Honest, ShortfallOf, PuHourSource, StorePuHour, FittedMonths, PuHourRowsEntitled, Aligned;
    hide SpeedLookupColumn, RateLookupColumn, AllValuesAnswered;
    var earliest := MinStamp(PuHourSource(frame));
    forall s: Signature | s.ts < earliest ensures PuHourStore(frame)(s) == None {
      NoPuHourBeforeFirst(frame, s.a, s.b, s.ts);
    }
    ExplainedIsAnswered(entities, answers, earliest, PuHourStore(frame));
    SpeedsAreValues(entities, answers, PuHourStore(frame));
    PuHourRetrievalHasNoMismatchIff(frame, entities, answers);
  }

  lemma NoPuHourBeforeFirst(frame: Frame, a: int, b: int, t: int)
    requires PuHourSource(frame) != [] && t < MinStamp(PuHourSource(frame))
    ensures StorePuHour(frame, a, b, t) == None
  {
    hide PuHourSource;
    AsOfIsLatest(PuHourSource(frame), a, b, t);
  }

  // --------------------------------------------------- what is unexplained ---

  lemma {:induction false} RowsBeforeMembers(frame: Frame, month: int, trip: Trip)
    ensures trip in RowsBefore(frame, month) <==> trip in frame && MonthOf(trip.pickup) < month
  {
    hide MonthOf;
    if frame != [] {
      RowsBeforeMembers(frame[..|frame| - 1], month, trip);
      assert frame == frame[..|frame| - 1] + [frame[|frame| - 1]];
    }
  }

  /** Some trip of a row's pair, with a duration, is dated before the row's month. */
  ghost predicate HasHistory(frame: Frame, e: Entity) {
    IsOdKey(e.a, e.b) &&
    exists trip :: trip in frame && MonthOf(trip.pickup) < MonthOf(e.ts) && trip.duration.Some? &&
                   OdIndex(trip.pu, trip.dropoff) == e.a * ZONE_SLOTS + e.b
  }

  lemma HasHistoryIff(frame: Frame, e: Entity)
    ensures OdStore(frame)(SignatureOf(e)).Some? <==> HasHistory(frame, e)
  {
    hide MonthOf, StoreOd, RowsBefore, Durations, OdIndex, SortReals;
    OdJoinServesHistory(frame, e.a, e.b, e.ts);
    if IsOdKey(e.a, e.b) {
      var w, k := RowsBefore(frame, MonthOf(e.ts)), e.a * ZONE_SLOTS + e.b;
      DurationsIff(w, k);
      forall trip ensures trip in w <==> trip in frame && MonthOf(trip.pickup) < MonthOf(e.ts) {
        RowsBeforeMembers(frame, MonthOf(e.ts), trip);
      }
    }
  }

  /**
   When the join drops the rows it has nothing for and loses none, the gate calls nothing
   unexplained if and only if every declared row from the earliest stamp on has history.
   */
  lemma OdUnexplainedIff(frame: Frame, entities: seq<Entity>, answers: seq<Answer<real>>)
    requires OdSource(frame) != [] && DistinctIds(entities) && AnswersExactly(entities, answers, OdStore(frame))
    ensures ShortfallOf(entities, answers, MinStamp(OdSource(frame))).unexplained == [] <==>
            forall e :: e in entities && MinStamp(OdSource(frame)) <= e.ts ==> HasHistory(frame, e)
  {
    hide DistinctIds, AnswersExactly, ShortfallOf, OdSource, HasHistory, OdStore;
    NothingLostIsUnexplainedIff(entities, answers, MinStamp(OdSource(frame)), OdStore(frame));
    forall e | e in entities ensures OdStore(frame)(SignatureOf(e)).Some? <==> HasHistory(frame, e) {
      HasHistoryIff(frame, e);
    }
  }
}
