/** The two result shapes the models share. */
module Base {

  /** A value that may be missing: the NaN, the null and the absent key of the source. */
  datatype Option<+T> = None | Some(value: T)

  /** A value, or the error the source raises instead. */
  datatype Result<+T, +E> = Ok(value: T) | Err(error: E)
}

/** What the models of measurements share. */
module Measures {

  function Abs(r: real): (a: real)
    ensures a >= 0.0 && (a == r || a == -r)
  {
    if r < 0.0 then -r else r
  }
}

/** What it is to pick some places of a list in their order. */
module Listing {

  ghost predicate ListsAt<T>(r: seq<T>, all: seq<T>, marks: set<nat>, at: seq<nat>) {
    && |r| == |at|
    && (forall i, j :: 0 <= i < j < |at| ==> at[i] < at[j])
    && (forall k :: k in marks <==> k in at)
    && (forall i :: 0 <= i < |at| ==> at[i] < |all| && r[i] == all[at[i]])
  }

  /** r holds the elements of `all` at the marked places, each once and in their order. */
  ghost predicate Lists<T>(r: seq<T>, all: seq<T>, marks: set<nat>) {
    exists at :: ListsAt(r, all, marks, at)
  }

  lemma ListsNothing<T>()
    ensures Lists<T>([], [], {})
  {
    assert ListsAt<T>([], [], {}, []);
  }

  lemma ListsSnoc<T>(r: seq<T>, all: seq<T>, marks: set<nat>, x: T, more: set<nat>, picked: bool)
    requires Lists(r, all, marks) && more == marks + if picked then {|all|} else {}
    ensures Lists(r + if picked then [x] else [], all + [x], more)
  {
    var at: seq<nat> :| ListsAt(r, all, marks, at);
    var place: nat := |all|;
    if picked {
      assert ListsAt(r + [x], all + [x], more, at + [place]);
    } else {
      assert r + [] == r;
      assert ListsAt(r, all + [x], more, at);
    }
  }

  lemma {:induction false} ListsCount<T>(r: seq<T>, all: seq<T>, marks: set<nat>)
    requires Lists(r, all, marks)
    ensures |r| == |marks|
  {
    var at :| ListsAt(r, all, marks, at);
    PlacesCount(at, marks);
  }

  lemma {:induction false} PlacesCount(at: seq<nat>, marks: set<nat>)
    requires forall i, j :: 0 <= i < j < |at| ==> at[i] < at[j]
    requires forall k :: k in marks <==> k in at
    ensures |marks| == |at|
  {
    if at == [] {
      assert marks == {};
    } else {
      var n := |at| - 1;
      var last := at[n];
      assert at == at[..n] + [last];
      forall k ensures k in marks - {last} <==> k in at[..n] {
        if k in at[..n] { assert k < last; }
      }
      PlacesCount(at[..n], marks - {last});
    }
  }
}
