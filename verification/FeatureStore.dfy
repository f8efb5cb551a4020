/**
 The store between the source rows and the answers: long rows stamped with the instant
 they become knowable, and the join that serves the latest row at or before an instant.
 */
module FeatureStore {
  import opened Base

  /** The second key of a view takes this many values: 266 zones, or 24 hours. */
  type Width = w: nat | w == 266 || w == 24 witness 24

  /** One row of a source: its two keys, its value, its event timestamp and its window. */
  datatype SourceRow<V> = SourceRow(a: int, b: int, value: V, stamp: int, window: seq<int>)

  // --------------------------------------------------------- dense to long ---

  function LongUpTo<V>(dense: seq<Option<V>>, n: nat, width: Width, stamp: int, window: seq<int>): seq<SourceRow<V>>
    requires n <= |dense|
  {
    if n == 0 then []
    else
      LongUpTo(dense, n - 1, width, stamp, window) +
      match dense[n - 1]
      case None => []
      case Some(v) => [SourceRow((n - 1) / width, (n - 1) % width, v, stamp, window)]
  }

  /** `_long_od` and `_long_pu_hour`: a row for every present slot, its index decoded. */
  function LongRows<V>(dense: seq<Option<V>>, width: Width, stamp: int, window: seq<int>): seq<SourceRow<V>> {
    LongUpTo(dense, |dense|, width, stamp, window)
  }

  lemma {:induction false} LongUpToMembers<V>(dense: seq<Option<V>>, n: nat, width: Width, stamp: int,
                                              window: seq<int>, r: SourceRow<V>)
    requires n <= |dense|
    ensures r in LongUpTo(dense, n, width, stamp, window) <==>
            exists k :: 0 <= k < n && dense[k].Some? &&
              r == SourceRow(k / width, k % width, dense[k].value, stamp, window)
  {
    if n > 0 {
      LongUpToMembers(dense, n - 1, width, stamp, window, r);
    }
  }

  /** Decoding a slot index is lossless. */
  lemma DecodesBack(k: nat, width: Width, a: int, b: int)
    requires 0 <= b < width
    ensures (k / width == a && k % width == b) <==> k == a * width + b
  {
    if width == 266 {
    } else {
    }
  }

  ghost predicate IsSlot(n: nat, width: Width, a: int, b: int) {
    0 <= a && 0 <= b < width && a * width + b < n
  }

  /** A table's long rows hold a key exactly when it is a slot whose value is present. */
  lemma LongMembers<V>(dense: seq<Option<V>>, width: Width, stamp: int, window: seq<int>, r: SourceRow<V>)
    ensures r in LongRows(dense, width, stamp, window) <==>
            && IsSlot(|dense|, width, r.a, r.b)
            && dense[r.a * width + r.b] == Some(r.value)
            && r.stamp == stamp && r.window == window
  {
    LongUpToMembers(dense, |dense|, width, stamp, window, r);
    if IsSlot(|dense|, width, r.a, r.b) {
      DecodesBack(r.a * width + r.b, width, r.a, r.b);
    }
    if k :| 0 <= k < |dense| && dense[k].Some? && r == SourceRow(k / width, k % width, dense[k].value, stamp, window) {
      Decoded(k, width);
    }
  }

  lemma Decoded(k: nat, width: Width)
    ensures k / width >= 0 && 0 <= k % width < width && (k / width) * width + k % width == k
  {
  }

  // ------------------------------------------------------------- the join ---

  ghost predicate Knowable<V>(r: SourceRow<V>, a: int, b: int, t: int) {
    r.a == a && r.b == b && r.stamp <= t
  }

  /** The point-in-time join: the latest row of a key stamped at or before t. */
  function AsOf<V>(rows: seq<SourceRow<V>>, a: int, b: int, t: int): Option<SourceRow<V>> {
    if rows == [] then None
    else
      var best := AsOf(rows[..|rows| - 1], a, b, t);
      var r := rows[|rows| - 1];
      if r.a == a && r.b == b && r.stamp <= t && (best.None? || best.value.stamp <= r.stamp)
      then Some(r) else best
  }

  function ValueOf<V>(r: Option<SourceRow<V>>): Option<V> {
    match r
    case None => None
    case Some(row) => Some(row.value)
  }

  function ValueAsOf<V>(rows: seq<SourceRow<V>>, a: int, b: int, t: int): Option<V> {
    ValueOf(AsOf(rows, a, b, t))
  }

  lemma {:induction false} AsOfIsLatest<V>(rows: seq<SourceRow<V>>, a: int, b: int, t: int)
    ensures match AsOf(rows, a, b, t)
            case None => forall r :: r in rows ==> !Knowable(r, a, b, t)
            case Some(best) =>
              && best in rows && Knowable(best, a, b, t)
              && forall r :: r in rows && Knowable(r, a, b, t) ==> r.stamp <= best.stamp
  {
    if rows != [] {
      AsOfIsLatest(rows[..|rows| - 1], a, b, t);
      assert rows == rows[..|rows| - 1] + [rows[|rows| - 1]];
    }
  }

  // ---------------------------------------------------- stacked windows ---

  /** One published window: its dense table, its stamp and its months. */
  datatype Block<V> = Block(dense: seq<Option<V>>, stamp: int, months: seq<int>)

  function Publish<V>(blocks: seq<Block<V>>, width: Width): seq<SourceRow<V>> {
    if blocks == [] then []
    else
      var last := blocks[|blocks| - 1];
      Publish(blocks[..|blocks| - 1], width) + LongRows(last.dense, width, last.stamp, last.months)
  }

  ghost predicate From<V>(block: Block<V>, width: Width, r: SourceRow<V>) {
    && IsSlot(|block.dense|, width, r.a, r.b)
    && block.dense[r.a * width + r.b] == Some(r.value)
    && r.stamp == block.stamp && r.window == block.months
  }

  lemma {:induction false} PublishMembers<V>(blocks: seq<Block<V>>, width: Width, r: SourceRow<V>)
    ensures r in Publish(blocks, width) <==> exists i :: 0 <= i < |blocks| && From(blocks[i], width, r)
  {
    hide From, LongRows;
    if blocks != [] {
      var n := |blocks| - 1;
      PublishMembers(blocks[..n], width, r);
      LongMembersFrom(blocks[n], width, r);
      if i :| 0 <= i < n && From(blocks[..n][i], width, r) {
        assert From(blocks[i], width, r);
      }
    }
  }

  lemma LongMembersFrom<V>(block: Block<V>, width: Width, r: SourceRow<V>)
    ensures r in LongRows(block.dense, width, block.stamp, block.months) <==> From(block, width, r)
  {
    LongMembers(block.dense, width, block.stamp, block.months, r);
  }

  /** Later windows are stamped later and know at least the keys the earlier ones know. */
  ghost predicate Stacked<V>(blocks: seq<Block<V>>) {
    && (forall i, j :: 0 <= i < j < |blocks| ==> blocks[i].stamp < blocks[j].stamp)
    && (forall i, j :: 0 <= i < j < |blocks| ==> |blocks[i].dense| == |blocks[j].dense|)
    && (forall i, j, k :: 0 <= i < j < |blocks| && 0 <= k < |blocks[i].dense| && blocks[i].dense[k].Some? ==>
          blocks[j].dense[k].Some?)
  }

  /** The first n windows, and no others, are knowable at t. */
  ghost predicate KnowableUpTo<V>(blocks: seq<Block<V>>, n: nat, t: int) {
    && n <= |blocks|
    && (forall i :: 0 <= i < n ==> blocks[i].stamp <= t)
    && (forall i :: n <= i < |blocks| ==> t < blocks[i].stamp)
  }

  /**
   The latest row of each key comes from the latest knowable window: the join over all
   published rows is a lookup in that one table, present or not.
   */
  lemma JoinIsLatestWindow<V>(blocks: seq<Block<V>>, width: Width, n: nat, a: int, b: int, t: int)
    requires Stacked(blocks) && KnowableUpTo(blocks, n, t)
    ensures ValueAsOf(Publish(blocks, width), a, b, t) ==
            if n > 0 && IsSlot(|blocks[n - 1].dense|, width, a, b) then blocks[n - 1].dense[a * width + b] else None
    ensures var r := AsOf(Publish(blocks, width), a, b, t);
            r.Some? ==> n > 0 && From(blocks[n - 1], width, r.value)
  {
    hide Publish, AsOf;
    var rows := Publish(blocks, width);
    AsOfIsLatest(rows, a, b, t);
    match AsOf(rows, a, b, t)
    case None =>
      if n > 0 && IsSlot(|blocks[n - 1].dense|, width, a, b) && blocks[n - 1].dense[a * width + b].Some? {
        var r := WindowRow(blocks, width, n, a, b, t);
        assert false;
      }
    case Some(best) =>
      PublishMembers(blocks, width, best);
      var i :| 0 <= i < |blocks| && From(blocks[i], width, best);
      assert i < n && IsSlot(|blocks[i].dense|, width, a, b);
      assert |blocks[i].dense| == |blocks[n - 1].dense| && blocks[n - 1].dense[a * width + b].Some?;
      var r := WindowRow(blocks, width, n, a, b, t);
      assert r.stamp <= best.stamp;
  }

  lemma WindowRow<V>(blocks: seq<Block<V>>, width: Width, n: nat, a: int, b: int, t: int) returns (r: SourceRow<V>)
    requires KnowableUpTo(blocks, n, t) && n > 0
    requires IsSlot(|blocks[n - 1].dense|, width, a, b) && blocks[n - 1].dense[a * width + b].Some?
    ensures r in Publish(blocks, width) && Knowable(r, a, b, t) && From(blocks[n - 1], width, r)
  {
    var block := blocks[n - 1];
    r := SourceRow(a, b, block.dense[a * width + b].value, block.stamp, block.months);
    PublishMembers(blocks, width, r);
  }

  // -------------------------------------------------------------- the order ---

  /** The order `sort_values` puts the rows in: by stamp, then by the two keys. */
  ghost predicate RowBefore<V>(r: SourceRow<V>, s: SourceRow<V>) {
    r.stamp < s.stamp || (r.stamp == s.stamp && (r.a < s.a || (r.a == s.a && r.b < s.b)))
  }

  ghost predicate InOrder<V(!new)>(rows: seq<SourceRow<V>>) {
    forall i, j :: 0 <= i < j < |rows| ==> RowBefore(rows[i], rows[j])
  }

  lemma {:induction false} LongInOrder<V(!new)>(dense: seq<Option<V>>, n: nat, width: Width, stamp: int,
                                                window: seq<int>)
    requires n <= |dense|
    ensures InOrder(LongUpTo(dense, n, width, stamp, window))
    ensures forall r :: r in LongUpTo(dense, n, width, stamp, window) ==>
              r.stamp == stamp && r.a * width + r.b < n && 0 <= r.b < width
  {
    if n > 0 {
      LongInOrder(dense, n - 1, width, stamp, window);
      Decoded(n - 1, width);
      var before := LongUpTo(dense, n - 1, width, stamp, window);
      if dense[n - 1].Some? {
        var next := SourceRow((n - 1) / width, (n - 1) % width, dense[n - 1].value, stamp, window);
        forall i | 0 <= i < |before| ensures RowBefore(before[i], next) {
          assert before[i] in before;
          SmallerSlotFirst(before[i].a, before[i].b, (n - 1) / width, (n - 1) % width, width);
        }
      }
    }
  }

  lemma SmallerSlotFirst(a: int, b: int, c: int, d: int, width: Width)
    requires a * width + b < c * width + d && 0 <= b < width && 0 <= d < width
    ensures a < c || (a == c && b < d)
  {
    if width == 266 {
    } else {
    }
  }

  /** The published rows already stand in the order `sort_values` would give them. */
  lemma {:induction false} PublishInOrder<V(!new)>(blocks: seq<Block<V>>, width: Width)
    requires forall i, j :: 0 <= i < j < |blocks| ==> blocks[i].stamp < blocks[j].stamp
    ensures InOrder(Publish(blocks, width))
  {
    if blocks != [] {
      var n := |blocks| - 1;
      PublishInOrder(blocks[..n], width);
      LongInOrder(blocks[n].dense, |blocks[n].dense|, width, blocks[n].stamp, blocks[n].months);
      var before := Publish(blocks[..n], width);
      var these := LongRows(blocks[n].dense, width, blocks[n].stamp, blocks[n].months);
      forall i, j | 0 <= i < |before| && 0 <= j < |these| ensures RowBefore(before[i], these[j]) {
        assert before[i] in before && these[j] in these;
        PublishMembers(blocks[..n], width, before[i]);
      }
    }
  }
}
