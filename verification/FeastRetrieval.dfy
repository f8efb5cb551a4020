/**
 How scripts/feast_retrieval.py reads the store's answers back: `compare` judges a column,
 `explain_shortfall` classifies the rows the store did not answer for, and `_answers`
 aligns the rest by the keys the store keyed on.
 */
module FeastRetrieval {
  import opened Base
  import opened Measures
  import opened Listing

  // ------------------------------------------------------------- compare ---

  type Column<T> = seq<Option<T>>

  function BothMissing<T(==)>(ours: Column<T>, theirs: Column<T>): nat
    requires |ours| == |theirs|
  {
    if ours == [] then 0
    else
      var n := |ours| - 1;
      BothMissing(ours[..n], theirs[..n]) + if ours[n].None? && theirs[n].None? then 1 else 0
  }

  function OneMissing<T(==)>(ours: Column<T>, theirs: Column<T>): nat
    requires |ours| == |theirs|
  {
    if ours == [] then 0
    else
      var n := |ours| - 1;
      OneMissing(ours[..n], theirs[..n]) + if ours[n].None? != theirs[n].None? then 1 else 0
  }

  /** The ids of the rows that disagree: different values, or one side missing. */
  function BadRows<T(==)>(ours: Column<T>, theirs: Column<T>, rowIds: seq<int>): seq<int>
    requires |ours| == |theirs| == |rowIds|
  {
    if ours == [] then []
    else
      var n := |ours| - 1;
      BadRows(ours[..n], theirs[..n], rowIds[..n]) + if ours[n] != theirs[n] then [rowIds[n]] else []
  }

  datatype Verdict = Verdict(compared: nat, mismatches: nat, maxAbsDelta: Option<real>,
                             bothMissing: nat, oneMissing: nat, examples: seq<int>)

  ghost predicate IsMaxDelta(ours: Column<real>, theirs: Column<real>, m: Option<real>)
    requires |ours| == |theirs|
  {
    match m
    case None => forall i :: 0 <= i < |ours| ==> ours[i].None? || theirs[i].None?
    case Some(d) =>
      && (forall i :: 0 <= i < |ours| && ours[i].Some? && theirs[i].Some? ==> Abs(ours[i].value - theirs[i].value) <= d)
      && (exists i :: 0 <= i < |ours| && ours[i].Some? && theirs[i].Some? && Abs(ours[i].value - theirs[i].value) == d)
  }

  /** `compare` on a float column, at tolerance zero, through its array of deltas. */
  method CompareFloat(ours: Column<real>, theirs: Column<real>, rowIds: seq<int>) returns (v: Verdict)
    requires |ours| == |theirs| == |rowIds|
    ensures v.compared == |ours|
    ensures v.examples == BadRows(ours, theirs, rowIds) && v.mismatches == |v.examples|
    ensures v.bothMissing == BothMissing(ours, theirs) && v.oneMissing == OneMissing(ours, theirs)
    ensures IsMaxDelta(ours, theirs, v.maxAbsDelta)
  {
    var delta := new real[|ours|](_ => 0.0);
    var maxDelta: Option<real> := None;
    for i := 0 to |ours|
      invariant forall k :: 0 <= k < i && ours[k].Some? && theirs[k].Some? ==>
                  delta[k] == Abs(ours[k].value - theirs[k].value)
      invariant IsMaxDelta(ours[..i], theirs[..i], maxDelta)
    {
      ghost var before := maxDelta;
      if ours[i].Some? && theirs[i].Some? {
        delta[i] := Abs(ours[i].value - theirs[i].value);
        if maxDelta.None? || maxDelta.value < delta[i] {
          maxDelta := Some(delta[i]);
        }
      }
      MaxDeltaSnoc(ours, theirs, i, before, maxDelta);
    }
    var both, one, bad := 0, 0, [];
    for i := 0 to |ours|
      invariant both == BothMissing(ours[..i], theirs[..i])
      invariant one == OneMissing(ours[..i], theirs[..i])
      invariant bad == BadRows(ours[..i], theirs[..i], rowIds[..i])
    {
      var comparable := ours[i].Some? && theirs[i].Some?;
      var differs := comparable && delta[i] > 0.0;
      var oneMissing := ours[i].None? != theirs[i].None?;
      assert ours[..i + 1][..i] == ours[..i] && theirs[..i + 1][..i] == theirs[..i];
      assert rowIds[..i + 1][..i] == rowIds[..i];
      both := both + if ours[i].None? && theirs[i].None? then 1 else 0;
      one := one + if oneMissing then 1 else 0;
      bad := bad + if differs || oneMissing then [rowIds[i]] else [];
    }
    assert ours[..|ours|] == ours && theirs[..|ours|] == theirs && rowIds[..|ours|] == rowIds;
    return Verdict(|ours|, |bad|, maxDelta, both, one, bad);
  }

  lemma MaxDeltaSnoc(ours: Column<real>, theirs: Column<real>, i: nat, before: Option<real>, after: Option<real>)
    requires |ours| == |theirs| && i < |ours|
    requires IsMaxDelta(ours[..i], theirs[..i], before)
    requires after == if ours[i].Some? && theirs[i].Some? &&
                         (before.None? || before.value < Abs(ours[i].value - theirs[i].value))
                      then Some(Abs(ours[i].value - theirs[i].value)) else before
    ensures IsMaxDelta(ours[..i + 1], theirs[..i + 1], after)
  {
    var os, ts := ours[..i + 1], theirs[..i + 1];
    assert forall k :: 0 <= k < i ==> os[k] == ours[..i][k] && ts[k] == theirs[..i][k];
    assert os[i] == ours[i] && ts[i] == theirs[i];
    if before.Some? {
      var k :| 0 <= k < i && ours[..i][k].Some? && theirs[..i][k].Some? &&
               Abs(ours[..i][k].value - theirs[..i][k].value) == before.value;
      assert os[k].Some? && ts[k].Some?;
    }
  }

  /** `compare` on a boolean or string column: the same counts, and no delta. */
  method CompareExact<T(==)>(ours: Column<T>, theirs: Column<T>, rowIds: seq<int>) returns (v: Verdict)
    requires |ours| == |theirs| == |rowIds|
    ensures v.compared == |ours| && v.maxAbsDelta == None
    ensures v.examples == BadRows(ours, theirs, rowIds) && v.mismatches == |v.examples|
    ensures v.bothMissing == BothMissing(ours, theirs) && v.oneMissing == OneMissing(ours, theirs)
  {
    var both, one, bad := 0, 0, [];
    for i := 0 to |ours|
      invariant both == BothMissing(ours[..i], theirs[..i])
      invariant one == OneMissing(ours[..i], theirs[..i])
      invariant bad == BadRows(ours[..i], theirs[..i], rowIds[..i])
    {
      var differs := ours[i].Some? && theirs[i].Some? && ours[i].value != theirs[i].value;
      var oneMissing := ours[i].None? != theirs[i].None?;
      assert ours[..i + 1][..i] == ours[..i] && theirs[..i + 1][..i] == theirs[..i];
      assert rowIds[..i + 1][..i] == rowIds[..i];
      both := both + if ours[i].None? && theirs[i].None? then 1 else 0;
      one := one + if oneMissing then 1 else 0;
      bad := bad + if differs || oneMissing then [rowIds[i]] else [];
    }
    assert ours[..|ours|] == ours && theirs[..|ours|] == theirs && rowIds[..|ours|] == rowIds;
    return Verdict(|ours|, |bad|, None, both, one, bad);
  }

  /** A column passes exactly when the two sides are the same, missing values included. */
  lemma {:induction false} NoBadRowsIff<T>(ours: Column<T>, theirs: Column<T>, rowIds: seq<int>)
    requires |ours| == |theirs| == |rowIds|
    ensures BadRows(ours, theirs, rowIds) == [] <==> ours == theirs
  {
    if ours != [] {
      var n := |ours| - 1;
      NoBadRowsIff(ours[..n], theirs[..n], rowIds[..n]);
      assert ours == ours[..n] + [ours[n]] && theirs == theirs[..n] + [theirs[n]];
    }
  }

  /** The mismatches are exactly the rows whose two sides differ, a missing value being a value. */
  lemma {:induction false} BadRowsAre<T>(ours: Column<T>, theirs: Column<T>, rowIds: seq<int>, id: int)
    requires |ours| == |theirs| == |rowIds|
    ensures id in BadRows(ours, theirs, rowIds) <==>
            exists i :: 0 <= i < |rowIds| && rowIds[i] == id && ours[i] != theirs[i]
  {
    if ours != [] {
      var n := |ours| - 1;
      BadRowsAre(ours[..n], theirs[..n], rowIds[..n], id);
      assert forall i :: 0 <= i < n ==> ours[..n][i] == ours[i] && theirs[..n][i] == theirs[i];
    }
  }

  ghost function Differing<T>(ours: Column<T>, theirs: Column<T>): set<nat>
    requires |ours| == |theirs|
  {
    set i: nat | i < |ours| && ours[i] != theirs[i]
  }

  lemma DifferingSnoc<T>(ours: Column<T>, theirs: Column<T>)
    requires |ours| == |theirs| > 0
    ensures var n := |ours| - 1;
            Differing(ours, theirs) == Differing(ours[..n], theirs[..n]) + if ours[n] != theirs[n] then {n} else {}
  {
  }

  /** ... each once, in the order of the rows, and so as many as differ. */
  lemma {:induction false} BadRowsAreListed<T>(ours: Column<T>, theirs: Column<T>, rowIds: seq<int>)
    requires |ours| == |theirs| == |rowIds|
    ensures Lists(BadRows(ours, theirs, rowIds), rowIds, Differing(ours, theirs))
    ensures |BadRows(ours, theirs, rowIds)| == |Differing(ours, theirs)|
  {
    if ours == [] {
      ListsNothing<int>();
      assert Differing(ours, theirs) == {};
    } else {
      hide Lists, Differing;
      var n := |ours| - 1;
      BadRowsAreListed(ours[..n], theirs[..n], rowIds[..n]);
      assert rowIds == rowIds[..n] + [rowIds[n]];
      DifferingSnoc(ours, theirs);
      ListsSnoc(BadRows(ours[..n], theirs[..n], rowIds[..n]), rowIds[..n], Differing(ours[..n], theirs[..n]),
                rowIds[n], Differing(ours, theirs), ours[n] != theirs[n]);
      ListsCount(BadRows(ours, theirs, rowIds), rowIds, Differing(ours, theirs));
    }
  }

  ghost function BothNone<T>(ours: Column<T>, theirs: Column<T>): set<nat>
    requires |ours| == |theirs|
  {
    set i: nat | i < |ours| && ours[i] == None && theirs[i] == None
  }

  ghost function OneNone<T>(ours: Column<T>, theirs: Column<T>): set<nat>
    requires |ours| == |theirs|
  {
    set i: nat | i < |ours| && ((ours[i] == None) != (theirs[i] == None))
  }

  lemma BothSnoc<T>(ours: Column<T>, theirs: Column<T>)
    requires |ours| == |theirs| > 0
    ensures var n := |ours| - 1;
            |BothNone(ours, theirs)| ==
            |BothNone(ours[..n], theirs[..n])| + if ours[n].None? && theirs[n].None? then 1 else 0
  {
    var n := |ours| - 1;
    assert BothNone(ours, theirs) ==
           BothNone(ours[..n], theirs[..n]) + if ours[n].None? && theirs[n].None? then {n} else {};
  }

  lemma OneSnoc<T>(ours: Column<T>, theirs: Column<T>)
    requires |ours| == |theirs| > 0
    ensures var n := |ours| - 1;
            |OneNone(ours, theirs)| ==
            |OneNone(ours[..n], theirs[..n])| + if ours[n].None? != theirs[n].None? then 1 else 0
  {
    var n := |ours| - 1;
    assert OneNone(ours, theirs) ==
           OneNone(ours[..n], theirs[..n]) + if ours[n].None? != theirs[n].None? then {n} else {};
  }

  /** The two missing counts are the numbers of rows with both sides, and with just one side, missing. */
  lemma {:induction false} MissingAre<T>(ours: Column<T>, theirs: Column<T>)
    requires |ours| == |theirs|
    ensures BothMissing(ours, theirs) == |BothNone(ours, theirs)|
    ensures OneMissing(ours, theirs) == |OneNone(ours, theirs)|
  {
    if ours == [] {
      assert BothNone(ours, theirs) == {} && OneNone(ours, theirs) == {};
    } else {
      hide BothNone, OneNone;
      MissingAre(ours[..|ours| - 1], theirs[..|ours| - 1]);
      BothSnoc(ours, theirs);
      OneSnoc(ours, theirs);
    }
  }

  ghost predicate OnlyRow(rowIds: seq<int>, i: nat)
    requires i < |rowIds|
  {
    forall j :: 0 <= j < |rowIds| && rowIds[j] == rowIds[i] ==> j == i
  }

  /**
   A delta of zero is no pass: every row with one side missing is a mismatch too. A row with
   both missing is none, when no other row has its id.
   */
  lemma OneMissingIsBad<T>(ours: Column<T>, theirs: Column<T>, rowIds: seq<int>)
    requires |ours| == |theirs| == |rowIds|
    ensures forall i :: 0 <= i < |ours| && ours[i].None? != theirs[i].None? ==>
              rowIds[i] in BadRows(ours, theirs, rowIds)
    ensures forall i :: 0 <= i < |ours| && ours[i].None? && theirs[i].None? && OnlyRow(rowIds, i) ==>
              rowIds[i] !in BadRows(ours, theirs, rowIds)
  {
    hide BadRows;
    forall i | 0 <= i < |ours|
      ensures ours[i].None? != theirs[i].None? ==> rowIds[i] in BadRows(ours, theirs, rowIds)
      ensures ours[i].None? && theirs[i].None? && OnlyRow(rowIds, i) ==> rowIds[i] !in BadRows(ours, theirs, rowIds)
    {
      BadRowsAre(ours, theirs, rowIds, rowIds[i]);
    }
  }

  /** And so the counts add up. */
  lemma {:induction false} MissingCounts<T>(ours: Column<T>, theirs: Column<T>, rowIds: seq<int>)
    requires |ours| == |theirs| == |rowIds|
    ensures OneMissing(ours, theirs) <= |BadRows(ours, theirs, rowIds)| <= |ours| - BothMissing(ours, theirs)
  {
    if ours != [] {
      var n := |ours| - 1;
      MissingCounts(ours[..n], theirs[..n], rowIds[..n]);
    }
  }

  // ----------------------------------------------------- answers and rows ---

  /** A declared row, with the two keys of one view and the timestamp it was asked at. */
  datatype Entity = Entity(rowId: int, a: int, b: int, ts: int)

  /** What the store joins on. */
  datatype Signature = Signature(a: int, b: int, ts: int)

  /** A row of an answer file; a null feature is None. */
  datatype Answer<V> = Answer(rowId: int, value: Option<V>)

  function SignatureOf(e: Entity): Signature {
    Signature(e.a, e.b, e.ts)
  }

  function IdsOf(entities: seq<Entity>): (ids: seq<int>)
    ensures |ids| == |entities|
  {
    seq(|entities|, i requires 0 <= i < |entities| => entities[i].rowId)
  }

  ghost predicate DistinctIds(entities: seq<Entity>) {
    forall i, j :: 0 <= i < j < |entities| ==> entities[i].rowId != entities[j].rowId
  }

  /** The left merge on row_id: the declared row of an answer, if there is one. */
  function EntityOf(entities: seq<Entity>, rowId: int): Option<Entity> {
    if entities == [] then None
    else if entities[0].rowId == rowId then Some(entities[0])
    else EntityOf(entities[1..], rowId)
  }

  lemma {:induction false} EntityOfIs(entities: seq<Entity>, rowId: int)
    ensures match EntityOf(entities, rowId)
            case None => forall e :: e in entities ==> e.rowId != rowId
            case Some(e) => e in entities && e.rowId == rowId
    ensures DistinctIds(entities) ==> forall e :: e in entities && e.rowId == rowId ==>
              EntityOf(entities, rowId) == Some(e)
  {
    if entities != [] && entities[0].rowId != rowId {
      EntityOfIs(entities[1..], rowId);
      assert entities == [entities[0]] + entities[1..];
    } else if entities != [] {
      assert forall j :: 0 < j < |entities| && DistinctIds(entities) ==> entities[j].rowId != rowId;
    }
  }

  function AnswerIds<V>(answers: seq<Answer<V>>): set<int> {
    set i | 0 <= i < |answers| :: answers[i].rowId
  }

  function AnsweredSignatures<V>(entities: seq<Entity>, answers: seq<Answer<V>>): set<Signature> {
    set i | 0 <= i < |answers| && EntityOf(entities, answers[i].rowId).Some?
      :: SignatureOf(EntityOf(entities, answers[i].rowId).value)
  }

  // ----------------------------------------------------------- shortfall ---

  datatype Class = Returned | Duplicate | BeforeFirst | Unexplained

  function ClassOf(e: Entity, ids: set<int>, answered: set<Signature>, earliest: int): Class {
    if e.rowId in ids then Returned
    else if SignatureOf(e) in answered then Duplicate
    else if e.ts < earliest then BeforeFirst
    else Unexplained
  }

  function IdsIn(entities: seq<Entity>, ids: set<int>, answered: set<Signature>, earliest: int, c: Class): seq<int> {
    if entities == [] then []
    else
      var e := entities[|entities| - 1];
      IdsIn(entities[..|entities| - 1], ids, answered, earliest, c) +
      if ClassOf(e, ids, answered, earliest) == c then [e.rowId] else []
  }

  datatype Shortfall = Shortfall(declared: nat, returned: nat,
                                 duplicates: seq<int>, beforeFirst: seq<int>, unexplained: seq<int>)

  function ShortfallOf<V>(entities: seq<Entity>, answers: seq<Answer<V>>, earliest: int): Shortfall {
    var ids, answered := AnswerIds(answers), AnsweredSignatures(entities, answers);
    Shortfall(|entities|, |answers|,
              IdsIn(entities, ids, answered, earliest, Duplicate),
              IdsIn(entities, ids, answered, earliest, BeforeFirst),
              IdsIn(entities, ids, answered, earliest, Unexplained))
  }

  /** `explain_shortfall`: one pass over the rows absent from the answer, into three lists. */
  method ExplainShortfall<V>(entities: seq<Entity>, answers: seq<Answer<V>>, earliest: int) returns (s: Shortfall)
    ensures s == ShortfallOf(entities, answers, earliest)
  {
    hide AnswerIds, AnsweredSignatures;
    var ids, answered := AnswerIds(answers), AnsweredSignatures(entities, answers);
    var duplicates, beforeFirst, unexplained := [], [], [];
    for i := 0 to |entities|
      invariant duplicates == IdsIn(entities[..i], ids, answered, earliest, Duplicate)
      invariant beforeFirst == IdsIn(entities[..i], ids, answered, earliest, BeforeFirst)
      invariant unexplained == IdsIn(entities[..i], ids, answered, earliest, Unexplained)
    {
      var record := entities[i];
      assert entities[..i + 1][..i] == entities[..i];
      if record.rowId !in ids {
        if SignatureOf(record) in answered {
          duplicates := duplicates + [record.rowId];
        } else if record.ts < earliest {
          beforeFirst := beforeFirst + [record.rowId];
        } else {
          unexplained := unexplained + [record.rowId];
        }
      }
    }
    assert entities[..|entities|] == entities;
    return Shortfall(|entities|, |answers|, duplicates, beforeFirst, unexplained);
  }

  lemma {:induction false} ClassesPartition(entities: seq<Entity>, ids: set<int>, answered: set<Signature>,
                                            earliest: int)
    ensures |entities| == |IdsIn(entities, ids, answered, earliest, Returned)|
                        + |IdsIn(entities, ids, answered, earliest, Duplicate)|
                        + |IdsIn(entities, ids, answered, earliest, BeforeFirst)|
                        + |IdsIn(entities, ids, answered, earliest, Unexplained)|
  {
    if entities != [] {
      ClassesPartition(entities[..|entities| - 1], ids, answered, earliest);
    }
  }

  lemma {:induction false} ClassMembers(entities: seq<Entity>, ids: set<int>, answered: set<Signature>, earliest: int,
                                        c: Class, id: int)
    ensures id in IdsIn(entities, ids, answered, earliest, c) <==>
            exists e :: e in entities && e.rowId == id && ClassOf(e, ids, answered, earliest) == c
  {
    hide ClassOf;
    if entities != [] {
      var init, last := entities[..|entities| - 1], entities[|entities| - 1];
      ClassMembers(init, ids, answered, earliest, c, id);
      assert entities == init + [last];
    }
  }

  /** With distinct row ids no row falls into two classes. */
  lemma ClassesAreDisjoint(entities: seq<Entity>, ids: set<int>, answered: set<Signature>, earliest: int, c: Class,
                           d: Class, id: int)
    requires DistinctIds(entities) && c != d
    requires id in IdsIn(entities, ids, answered, earliest, c)
    ensures id !in IdsIn(entities, ids, answered, earliest, d)
  {
    ClassMembers(entities, ids, answered, earliest, c, id);
    ClassMembers(entities, ids, answered, earliest, d, id);
  }

  ghost function PlacesOf(entities: seq<Entity>, ids: set<int>, answered: set<Signature>, earliest: int,
                          c: Class): set<nat> {
    set i: nat | i < |entities| && ClassOf(entities[i], ids, answered, earliest) == c
  }

  lemma {:induction false} ClassIsListed(entities: seq<Entity>, ids: set<int>, answered: set<Signature>, earliest: int,
                                         c: Class)
    ensures Lists(IdsIn(entities, ids, answered, earliest, c), IdsOf(entities),
                  PlacesOf(entities, ids, answered, earliest, c))
  {
    hide ClassOf;
    if entities == [] {
      ListsNothing<int>();
      assert IdsOf(entities) == [] && PlacesOf(entities, ids, answered, earliest, c) == {};
    } else {
      hide Lists;
      var init, last := entities[..|entities| - 1], entities[|entities| - 1];
      ClassIsListed(init, ids, answered, earliest, c);
      assert IdsOf(entities) == IdsOf(init) + [last.rowId];
      ListsSnoc(IdsIn(init, ids, answered, earliest, c), IdsOf(init), PlacesOf(init, ids, answered, earliest, c),
                last.rowId, PlacesOf(entities, ids, answered, earliest, c),
                ClassOf(last, ids, answered, earliest) == c);
    }
  }

  /** No answer carries the row's id. */
  ghost predicate IsAbsent<V>(answers: seq<Answer<V>>, e: Entity) {
    forall j :: 0 <= j < |answers| ==> answers[j].rowId != e.rowId
  }

  /** A declared row with the same keys and the same timestamp was answered. */
  ghost predicate TwinAnswered<V>(entities: seq<Entity>, answers: seq<Answer<V>>, e: Entity) {
    exists twin :: twin in entities && !IsAbsent(answers, twin) && twin.a == e.a && twin.b == e.b && twin.ts == e.ts
  }

  lemma TwinAnsweredIff<V>(entities: seq<Entity>, answers: seq<Answer<V>>, e: Entity)
    requires DistinctIds(entities)
    ensures SignatureOf(e) in AnsweredSignatures(entities, answers) <==> TwinAnswered(entities, answers, e)
    ensures e.rowId in AnswerIds(answers) <==> !IsAbsent(answers, e)
  {
    hide DistinctIds;
    if SignatureOf(e) in AnsweredSignatures(entities, answers) {
      var j :| 0 <= j < |answers| && EntityOf(entities, answers[j].rowId).Some? &&
               SignatureOf(EntityOf(entities, answers[j].rowId).value) == SignatureOf(e);
      EntityOfIs(entities, answers[j].rowId);
      assert !IsAbsent(answers, EntityOf(entities, answers[j].rowId).value);
    }
    if twin :| twin in entities && !IsAbsent(answers, twin) && twin.a == e.a && twin.b == e.b && twin.ts == e.ts {
      var j :| 0 <= j < |answers| && answers[j].rowId == twin.rowId;
      EntityOfIs(entities, twin.rowId);
    }
  }

  ghost function TwinRows<V>(entities: seq<Entity>, answers: seq<Answer<V>>): set<nat> {
    set i: nat | i < |entities| && IsAbsent(answers, entities[i]) && TwinAnswered(entities, answers, entities[i])
  }

  ghost function EarlyRows<V>(entities: seq<Entity>, answers: seq<Answer<V>>, earliest: int): set<nat> {
    set i: nat | i < |entities| && IsAbsent(answers, entities[i]) && !TwinAnswered(entities, answers, entities[i]) &&
                 entities[i].ts < earliest
  }

  ghost function LostRows<V>(entities: seq<Entity>, answers: seq<Answer<V>>, earliest: int): set<nat> {
    set i: nat | i < |entities| && IsAbsent(answers, entities[i]) && !TwinAnswered(entities, answers, entities[i]) &&
                 entities[i].ts >= earliest
  }

  /**
   What the three lists are: of the declared rows without an answer, in their order, those with
   an answered twin; the others before the earliest stamp; and the rest.
   */
  lemma ShortfallLists<V>(entities: seq<Entity>, answers: seq<Answer<V>>, earliest: int)
    requires DistinctIds(entities)
    ensures var s := ShortfallOf(entities, answers, earliest);
            && s.declared == |entities| && s.returned == |answers|
            && Lists(s.duplicates, IdsOf(entities), TwinRows(entities, answers))
            && Lists(s.beforeFirst, IdsOf(entities), EarlyRows(entities, answers, earliest))
            && Lists(s.unexplained, IdsOf(entities), LostRows(entities, answers, earliest))
  {
    hide Lists, IdsIn, DistinctIds, AnswerIds, AnsweredSignatures, TwinAnswered, IsAbsent;
    var ids, answered := AnswerIds(answers), AnsweredSignatures(entities, answers);
    forall e
      ensures SignatureOf(e) in answered <==> TwinAnswered(entities, answers, e)
      ensures e.rowId in ids <==> !IsAbsent(answers, e)
    {
      TwinAnsweredIff(entities, answers, e);
    }
    ClassIsListed(entities, ids, answered, earliest, Duplicate);
    ClassIsListed(entities, ids, answered, earliest, BeforeFirst);
    ClassIsListed(entities, ids, answered, earliest, Unexplained);
    assert PlacesOf(entities, ids, answered, earliest, Duplicate) == TwinRows(entities, answers);
    assert PlacesOf(entities, ids, answered, earliest, BeforeFirst) == EarlyRows(entities, answers, earliest);
    assert PlacesOf(entities, ids, answered, earliest, Unexplained) == LostRows(entities, answers, earliest);
  }

  lemma DeclaredSnoc(init: seq<Entity>, last: Entity, ids: set<int>)
    requires DistinctIds(init + [last])
    ensures |ids * DeclaredIds(init + [last])| == |ids * DeclaredIds(init)| + if last.rowId in ids then 1 else 0
    ensures DistinctIds(init)
  {
    var all := init + [last];
    assert forall k :: 0 <= k < |init| ==> all[k] == init[k];
    assert all[|init|] == last;
    assert DeclaredIds(all) == DeclaredIds(init) + {last.rowId};
    assert last.rowId !in DeclaredIds(init);
    var more := if last.rowId in ids then {last.rowId} else {};
    assert ids * DeclaredIds(all) == ids * DeclaredIds(init) + more;
  }

  lemma {:induction false} ReturnedCount(entities: seq<Entity>, ids: set<int>, answered: set<Signature>, earliest: int)
    requires DistinctIds(entities)
    ensures |IdsIn(entities, ids, answered, earliest, Returned)| == |ids * DeclaredIds(entities)|
  {
    hide DistinctIds, DeclaredIds;
    if entities == [] {
      assert DeclaredIds([]) == {} by { NoneDeclared(); }
    } else {
      var init, last := entities[..|entities| - 1], entities[|entities| - 1];
      assert entities == init + [last];
      DeclaredSnoc(init, last, ids);
      ReturnedCount(init, ids, answered, earliest);
    }
  }

  lemma NoneDeclared()
    ensures DeclaredIds([]) == {}
  {
  }

  function DeclaredIds(entities: seq<Entity>): set<int> {
    set e | e in entities :: e.rowId
  }

  ghost predicate WellFormedAnswer<V>(entities: seq<Entity>, answers: seq<Answer<V>>) {
    && (forall i, j :: 0 <= i < j < |answers| ==> answers[i].rowId != answers[j].rowId)
    && (forall i :: 0 <= i < |answers| ==> answers[i].rowId in DeclaredIds(entities))
  }

  lemma {:induction false} AnswerIdsCount<V>(answers: seq<Answer<V>>)
    ensures |AnswerIds(answers)| <= |answers|
    ensures |AnswerIds(answers)| == |answers| <==>
            forall i, j :: 0 <= i < j < |answers| ==> answers[i].rowId != answers[j].rowId
  {
    if answers != [] {
      var init, last := answers[..|answers| - 1], answers[|answers| - 1];
      AnswerIdsCount(init);
      assert AnswerIds(answers) == AnswerIds(init) + {last.rowId};
      if last.rowId in AnswerIds(init) {
        var i :| 0 <= i < |init| && init[i].rowId == last.rowId;
        assert answers[i].rowId == answers[|answers| - 1].rowId;
      } else {
        assert forall i :: 0 <= i < |init| ==> init[i].rowId in AnswerIds(init);
        assert forall i :: 0 <= i < |init| ==> answers[i] == init[i];
      }
    }
  }

  lemma SubsetSize(a: set<int>, b: set<int>)
    ensures |a * b| <= |a|
    ensures |a * b| == |a| <==> a <= b
  {
    assert a == a * b + (a - b);
    assert |a| == |a * b| + |a - b|;
    if a <= b { assert a - b == {}; }
  }

  /**
   Declared = returned + duplicates + before-first + unexplained exactly when the answer
   names declared rows only, each once.
   */
  lemma ShortfallAddsUp<V>(entities: seq<Entity>, answers: seq<Answer<V>>, earliest: int)
    requires DistinctIds(entities)
    ensures var s := ShortfallOf(entities, answers, earliest);
            s.declared == s.returned + |s.duplicates| + |s.beforeFirst| + |s.unexplained|
            <==> WellFormedAnswer(entities, answers)
  {
    hide DistinctIds, AnsweredSignatures;
    var ids, answered := AnswerIds(answers), AnsweredSignatures(entities, answers);
    ClassesPartition(entities, ids, answered, earliest);
    ReturnedCount(entities, ids, answered, earliest);
    AnswerIdsCount(answers);
    SubsetSize(ids, DeclaredIds(entities));
    assert ids <= DeclaredIds(entities) <==> forall i :: 0 <= i < |answers| ==>
             answers[i].rowId in DeclaredIds(entities) by {
      assert forall i :: 0 <= i < |answers| ==> answers[i].rowId in ids;
    }
  }

  lemma ReturnedIsAnswered<V>(entities: seq<Entity>, answers: seq<Answer<V>>, e: Entity)
    requires DistinctIds(entities) && e in entities && e.rowId in AnswerIds(answers)
    ensures SignatureOf(e) in AnsweredSignatures(entities, answers)
  {
    EntityOfIs(entities, e.rowId);
    var i :| 0 <= i < |answers| && answers[i].rowId == e.rowId;
  }

  /** Nothing is unexplained exactly when every signature from the first stamp on was answered. */
  lemma UnexplainedIff<V>(entities: seq<Entity>, answers: seq<Answer<V>>, earliest: int)
    requires DistinctIds(entities)
    ensures ShortfallOf(entities, answers, earliest).unexplained == [] <==>
            forall e :: e in entities && earliest <= e.ts ==> SignatureOf(e) in AnsweredSignatures(entities, answers)
  {
    hide AnswerIds, AnsweredSignatures, DistinctIds;
    var ids, answered := AnswerIds(answers), AnsweredSignatures(entities, answers);
    var un := ShortfallOf(entities, answers, earliest).unexplained;
    forall e | e in entities
      ensures ClassOf(e, ids, answered, earliest) == Unexplained <==> earliest <= e.ts && SignatureOf(e) !in answered
    {
      if e.rowId in ids { ReturnedIsAnswered(entities, answers, e); }
    }
    if un == [] {
      forall e | e in entities && earliest <= e.ts ensures SignatureOf(e) in answered {
        ClassMembers(entities, ids, answered, earliest, Unexplained, e.rowId);
      }
    } else {
      ClassMembers(entities, ids, answered, earliest, Unexplained, un[0]);
    }
  }

  // ----------------------------------------------------------- alignment ---

  /** The first answer for a signature, as `drop_duplicates` keeps it. */
  function FirstAnswer<V>(entities: seq<Entity>, answers: seq<Answer<V>>, s: Signature): Option<Answer<V>> {
    if answers == [] then None
    else
      var e := EntityOf(entities, answers[0].rowId);
      if e.Some? && SignatureOf(e.value) == s then Some(answers[0]) else FirstAnswer(entities, answers[1..], s)
  }

  /** `_answers`: each declared row gets the answer of its own signature, or nothing. */
  function AlignedValue<V>(entities: seq<Entity>, answers: seq<Answer<V>>, e: Entity): Option<V> {
    match FirstAnswer(entities, answers, SignatureOf(e))
    case None => None
    case Some(a) => a.value
  }

  function Aligned<V>(entities: seq<Entity>, answers: seq<Answer<V>>): (column: Column<V>)
    ensures |column| == |entities|
  {
    seq(|entities|, i requires 0 <= i < |entities| => AlignedValue(entities, answers, entities[i]))
  }

  ghost predicate AnswersFor<V>(entities: seq<Entity>, a: Answer<V>, s: Signature) {
    EntityOf(entities, a.rowId).Some? && SignatureOf(EntityOf(entities, a.rowId).value) == s
  }

  /** Of several answers for one signature the first counts, honest or not. */
  lemma {:induction false} FirstAnswerIsFirst<V>(entities: seq<Entity>, answers: seq<Answer<V>>, s: Signature)
    ensures match FirstAnswer(entities, answers, s)
            case None => forall j :: 0 <= j < |answers| ==> !AnswersFor(entities, answers[j], s)
            case Some(a) =>
              exists j :: 0 <= j < |answers| && answers[j] == a && AnswersFor(entities, a, s) &&
                          forall l :: 0 <= l < j ==> !AnswersFor(entities, answers[l], s)
  {
    if answers != [] && !AnswersFor(entities, answers[0], s) {
      var rest := answers[1..];
      FirstAnswerIsFirst(entities, rest, s);
      if FirstAnswer(entities, rest, s).Some? {
        var j :| 0 <= j < |rest| && rest[j] == FirstAnswer(entities, rest, s).value &&
                 forall l :: 0 <= l < j ==> !AnswersFor(entities, rest[l], s);
        assert answers[j + 1] == rest[j];
        assert forall l :: 0 < l < j + 1 ==> answers[l] == rest[l - 1];
      } else {
        assert forall l :: 0 < l < |answers| ==> answers[l] == rest[l - 1];
      }
    }
  }

  /** Every answer carries what the store holds for its row's signature. */
  ghost predicate Honest<V(!new)>(entities: seq<Entity>, answers: seq<Answer<V>>, store: Signature -> Option<V>) {
    forall i :: 0 <= i < |answers| ==>
      var e := EntityOf(entities, answers[i].rowId);
      e.Some? ==> answers[i].value == store(SignatureOf(e.value))
  }

  lemma {:induction false} FirstAnswerIs<V(!new)>(entities: seq<Entity>, answers: seq<Answer<V>>,
                                                  store: Signature -> Option<V>, s: Signature)
    requires Honest(entities, answers, store)
    ensures FirstAnswer(entities, answers, s).Some? <==> s in AnsweredSignatures(entities, answers)
    ensures FirstAnswer(entities, answers, s).Some? ==> FirstAnswer(entities, answers, s).value.value == store(s)
  {
    if answers != [] {
      var e := EntityOf(entities, answers[0].rowId);
      if e.None? || SignatureOf(e.value) != s {
        assert forall i :: 0 < i < |answers| ==> answers[i] == answers[1..][i - 1];
        FirstAnswerIs(entities, answers[1..], store, s);
      }
    }
  }

  /** Every declared row that the store has a value for was answered, itself or a row of its signature. */
  ghost predicate AllValuesAnswered<V(!new)>(entities: seq<Entity>, answers: seq<Answer<V>>,
                                             store: Signature -> Option<V>) {
    forall e :: e in entities && store(SignatureOf(e)).Some? ==> SignatureOf(e) in AnsweredSignatures(entities, answers)
  }

  ghost predicate AlignsWith<V(!new)>(entities: seq<Entity>, answers: seq<Answer<V>>, store: Signature -> Option<V>) {
    forall i :: 0 <= i < |entities| ==> Aligned(entities, answers)[i] == store(SignatureOf(entities[i]))
  }

  /**
   Alignment gives every declared row the store's own value for it, present or missing, if and
   only if every row with a value was answered under its signature: duplicates recover theirs
   and rows that were dropped for want of one stay empty.
   */
  lemma AlignedIsStoreIff<V(!new)>(entities: seq<Entity>, answers: seq<Answer<V>>, store: Signature -> Option<V>)
    requires Honest(entities, answers, store)
    ensures AlignsWith(entities, answers, store) <==> AllValuesAnswered(entities, answers, store)
  {
    hide Honest, AnsweredSignatures, FirstAnswer, SignatureOf;
    forall i | 0 <= i < |entities|
      ensures Aligned(entities, answers)[i] == store(SignatureOf(entities[i])) <==>
              (store(SignatureOf(entities[i])).Some? ==>
               SignatureOf(entities[i]) in AnsweredSignatures(entities, answers))
    {
      FirstAnswerIs(entities, answers, store, SignatureOf(entities[i]));
    }
    if AlignsWith(entities, answers, store) {
      forall e | e in entities && store(SignatureOf(e)).Some?
        ensures SignatureOf(e) in AnsweredSignatures(entities, answers)
      {
        var i :| 0 <= i < |entities| && entities[i] == e;
        assert Aligned(entities, answers)[i] == store(SignatureOf(entities[i]));
      }
    }
  }

  /** Nothing unexplained is enough for that, when the store has nothing before its first stamp. */
  lemma ExplainedIsAnswered<V(!new)>(entities: seq<Entity>, answers: seq<Answer<V>>, earliest: int,
                                     store: Signature -> Option<V>)
    requires DistinctIds(entities)
    requires forall s: Signature :: s.ts < earliest ==> store(s) == None
    requires ShortfallOf(entities, answers, earliest).unexplained == []
    ensures AllValuesAnswered(entities, answers, store)
  {
    hide DistinctIds, AnsweredSignatures, ShortfallOf;
    UnexplainedIff(entities, answers, earliest);
  }

  lemma AlignedIsStore<V(!new)>(entities: seq<Entity>, answers: seq<Answer<V>>, earliest: int,
                                store: Signature -> Option<V>)
    requires DistinctIds(entities) && Honest(entities, answers, store)
    requires forall s: Signature :: s.ts < earliest ==> store(s) == None
    requires ShortfallOf(entities, answers, earliest).unexplained == []
    ensures AlignsWith(entities, answers, store)
  {
    hide DistinctIds, Honest, AnsweredSignatures, ShortfallOf, AlignsWith, AllValuesAnswered;
    ExplainedIsAnswered(entities, answers, earliest, store);
    AlignedIsStoreIff(entities, answers, store);
  }

  // --------------------------------------------- what counts as unexplained ---

  /** The answer of a join that drops the rows it has no value for, and loses none. */
  ghost predicate AnswersExactly<V(!new)>(entities: seq<Entity>, answers: seq<Answer<V>>,
                                          store: Signature -> Option<V>) {
    forall e :: e in entities ==>
      (SignatureOf(e) in AnsweredSignatures(entities, answers) <==> store(SignatureOf(e)).Some?)
  }

  /**
   Of such an answer nothing is unexplained if and only if every declared row from the earliest
   stamp on has a value: a row is also unexplained when its key is first known after it.
   */
  lemma NothingLostIsUnexplainedIff<V(!new)>(entities: seq<Entity>, answers: seq<Answer<V>>, earliest: int,
                                             store: Signature -> Option<V>)
    requires DistinctIds(entities) && AnswersExactly(entities, answers, store)
    ensures ShortfallOf(entities, answers, earliest).unexplained == [] <==>
            forall e :: e in entities && earliest <= e.ts ==> store(SignatureOf(e)).Some?
  {
    hide DistinctIds, AnsweredSignatures, ShortfallOf, SignatureOf;
    UnexplainedIff(entities, answers, earliest);
  }

  /** Two declared rows after the first stamp, of which the store knows the first one's key only. */
  lemma DroppedRowIsUnexplained<V(!new)>(value: V, store: Signature -> Option<V>)
    requires store(Signature(1, 3, 10)) == Some(value) && store(Signature(1, 2, 10)) == None
    ensures var entities := [Entity(0, 1, 3, 10), Entity(1, 1, 2, 10)];
            var answers := [Answer(0, Some(value))];
            && AnswersExactly(entities, answers, store) && AlignsWith(entities, answers, store)
            && ShortfallOf(entities, answers, 5).unexplained == [1]
  {
    var entities := [Entity(0, 1, 3, 10), Entity(1, 1, 2, 10)];
    var answers := [Answer(0, Some(value))];
    assert EntityOf(entities, 0) == Some(entities[0]);
    var ids, answered := AnswerIds(answers), AnsweredSignatures(entities, answers);
    assert answers[0].rowId in ids;
    assert ids == {0};
    assert answered == {Signature(1, 3, 10)};
    assert entities[..1] == [entities[0]] && entities[..1][..0] == [];
    assert IdsIn(entities[..1], ids, answered, 5, Unexplained) == [];
    AlignedIsStoreIff(entities, answers, store);
  }
}
