/**
 `ring_area_and_centroid` and `polygon_centroid` of scripts/derive_zone_centroids.py over
 exact reals, and the laws the derived centroid table rests on.
 */
module ZoneCentroids {
  import opened Base
  import opened Measures
  import opened Shoelace

  datatype Error = ZeroTotalArea

  /** A ring's signed area, and its centroid times that area. */
  datatype Weighted = Weighted(area: real, wx: real, wy: real) {
    function Plus(w: Weighted): Weighted {
      Weighted(area + w.area, wx + w.wx, wy + w.wy)
    }
    function Negated(): Weighted {
      Weighted(-area, -wx, -wy)
    }
  }

  const NOTHING := Weighted(0.0, 0.0, 0.0)

  datatype Centroid = Centroid(x: real, y: real, area: real)

  // ------------------------------------------------------------- one ring ---

  /** A ring of zero area contributes nothing, its moments included. */
  function FromSums(s: Sums): Weighted {
    if s.a2 == 0.0 then NOTHING else Weighted(s.a2 / 2.0, s.cx / 6.0, s.cy / 6.0)
  }

  function RingTerms(ring: Chain): Weighted {
    FromSums(SumsOf(ring))
  }

  method RingAreaAndCentroid(points: Chain) returns (area: real, wx: real, wy: real)
    ensures Weighted(area, wx, wy) == RingTerms(points)
  {
    hide Edge, SumsOf, Sums.Plus, Cross, Moment;
    var a2, cx, cy := 0.0, 0.0, 0.0;
    var i := 0;
    ZeroIsNeutral(SumsOf(points));
    assert points[0..] == points;
    while i + 1 < |points|
      invariant 0 <= i <= |points| && (points != [] ==> i < |points|)
      invariant Sums(a2, cx, cy).Plus(SumsOf(points[i..])) == SumsOf(points)
    {
      var p, q := points[i], points[i + 1];
      var cross := Cross(p, q);
      ghost var sofar := Sums(a2, cx, cy);
      a2 := a2 + cross;
      cx := cx + Moment(p.x, q.x, cross);
      cy := cy + Moment(p.y, q.y, cross);
      NextEdge(points[i..], sofar, Sums(a2, cx, cy));
      assert points[i..][1..] == points[i + 1..];
      i := i + 1;
    }
    NoEdgesLeft(points[i..]);
    ZeroIsNeutral(Sums(a2, cx, cy));
    area := a2 / 2.0;
    if a2 == 0.0 {
      return 0.0, 0.0, 0.0;
    }
    return area, cx / 6.0, cy / 6.0;
  }

  lemma NoEdgesLeft(pts: Chain)
    requires |pts| < 2
    ensures SumsOf(pts) == ZERO
  {
  }

  lemma NextEdge(pts: Chain, s: Sums, next: Sums)
    requires |pts| >= 2
    requires var p, q := pts[0], pts[1];
             var cross := Cross(p, q);
             next == Sums(s.a2 + cross, s.cx + Moment(p.x, q.x, cross), s.cy + Moment(p.y, q.y, cross))
    ensures s.Plus(SumsOf(pts)) == next.Plus(SumsOf(pts[1..]))
  {
    hide Cross, Moment;
    var e := Edge(pts[0], pts[1]);
    assert next == s.Plus(e);
    PlusIsAssociative(s, e, SumsOf(pts[1..]));
  }

  lemma PlusIsAssociative(r: Sums, s: Sums, t: Sums)
    ensures r.Plus(s).Plus(t) == r.Plus(s.Plus(t))
  {
  }

  lemma ZeroIsNeutral(s: Sums)
    ensures ZERO.Plus(s) == s && s.Plus(ZERO) == s
  {
  }

  // ---------------------------------------------------------- the polygon ---

  function CloseRing(ring: Chain): (closed: Chain)
    requires ring != []
    ensures Closed(closed)
  {
    if ring[0] != ring[|ring| - 1] then ring + [ring[0]] else ring
  }

  function PartTerms(part: Chain): Weighted {
    if |part| < 4 then NOTHING else RingTerms(CloseRing(part))
  }

  /** Python's points[start:end]. */
  function Slice(points: Chain, start: nat, end: nat): Chain {
    var hi := if end < |points| then end else |points|;
    if start < hi then points[start..hi] else []
  }

  function PartAt(starts: seq<nat>, points: Chain, i: nat): Chain
    requires i < |starts|
  {
    Slice(points, starts[i], if i + 1 < |starts| then starts[i + 1] else |points|)
  }

  /** The rings of a shape: each part runs to the next part's start, the last to the end. */
  function Parts(starts: seq<nat>, points: Chain): (parts: seq<Chain>)
    ensures |parts| == |starts|
  {
    seq(|starts|, i requires 0 <= i < |starts| => PartAt(starts, points, i))
  }

  /** The rings of a shape one after another, as a shapefile keeps them. */
  function Flat(rings: seq<Chain>): Chain {
    if rings == [] then [] else Flat(rings[..|rings| - 1]) + rings[|rings| - 1]
  }

  /** Where each ring starts: the running sum of the lengths before it. */
  function Offsets(rings: seq<Chain>): (starts: seq<nat>)
    ensures |starts| == |rings|
  {
    if rings == [] then []
    else if |rings| == 1 then [0]
    else
      var n := |rings| - 1;
      var before := Offsets(rings[..n]);
      before + [before[n - 1] + |rings[n - 1]|]
  }

  lemma {:induction false} FlatEnds(rings: seq<Chain>)
    requires rings != []
    ensures Offsets(rings)[|rings| - 1] + |rings[|rings| - 1]| == |Flat(rings)|
  {
    var n := |rings| - 1;
    if n > 0 {
      FlatEnds(rings[..n]);
    } else {
      assert Flat(rings[..0]) == [];
    }
  }

  /** Cutting the points of a shape at its rings' starts gives back exactly those rings. */
  lemma {:induction false} CutsBack(rings: seq<Chain>)
    ensures Parts(Offsets(rings), Flat(rings)) == rings
  {
    if rings != [] {
      var n := |rings| - 1;
      var init, last := rings[..n], rings[n];
      var starts, points := Offsets(rings), Flat(rings);
      CutsBack(init);
      FlatEnds(rings);
      if n > 0 { FlatEnds(init); }
      assert |Flat(init)| == starts[n] && points == Flat(init) + last;
      forall i | 0 <= i <= n ensures PartAt(starts, points, i) == rings[i] {
        if i < n {
          assert starts[i] == Offsets(init)[i] && Parts(Offsets(init), Flat(init))[i] == init[i];
          EarlierPart(init, last, starts, i);
        } else {
          assert Slice(points, starts[n], |points|) == last;
        }
      }
      assert forall i :: 0 <= i < |rings| ==> Parts(starts, points)[i] == rings[i];
    }
  }

  lemma EarlierPart(init: seq<Chain>, last: Chain, starts: seq<nat>, i: nat)
    requires i < |init| && |starts| == |init| + 1 && starts[..|init|] == Offsets(init)
    requires starts[|init|] == |Flat(init)|
    ensures PartAt(starts, Flat(init) + last, i) == PartAt(Offsets(init), Flat(init), i)
  {
    hide Offsets, Flat;
    assert starts[i] == Offsets(init)[i];
    if i + 1 < |init| {
      assert starts[i + 1] == Offsets(init)[i + 1];
      OffsetsWithin(init, i + 1);
    }
    SliceWithin(Flat(init), last, starts[i], if i + 1 < |init| then starts[i + 1] else |Flat(init)|);
  }

  lemma SliceWithin(points: Chain, more: Chain, start: nat, end: nat)
    requires end <= |points|
    ensures Slice(points + more, start, end) == Slice(points, start, end)
  {
  }

  lemma {:induction false} OffsetsWithin(rings: seq<Chain>, i: nat)
    requires i < |rings|
    ensures Offsets(rings)[i] <= |Flat(rings)|
  {
    var n := |rings| - 1;
    if i < n {
      OffsetsWithin(rings[..n], i);
    } else {
      FlatEnds(rings);
    }
  }

  function Total(parts: seq<Chain>): Weighted {
    if parts == [] then NOTHING else Total(parts[..|parts| - 1]).Plus(PartTerms(parts[|parts| - 1]))
  }

  function FromTotal(w: Weighted): Result<Centroid, Error> {
    if w.area == 0.0 then Err(ZeroTotalArea) else Ok(Centroid(w.wx / w.area, w.wy / w.area, Abs(w.area)))
  }

  function CentroidOf(parts: seq<Chain>): Result<Centroid, Error> {
    FromTotal(Total(parts))
  }

  method PolygonCentroid(starts: seq<nat>, points: Chain) returns (r: Result<Centroid, Error>)
    ensures r == CentroidOf(Parts(starts, points))
    ensures forall rings :: starts == Offsets(rings) && points == Flat(rings) ==> r == CentroidOf(rings)
  {
    hide SumsOf, FromSums, RingTerms, Total, Offsets, Flat;
    forall rings | starts == Offsets(rings) && points == Flat(rings) ensures Parts(starts, points) == rings {
      CutsBack(rings);
    }
    ghost var rings := Parts(starts, points);
    TotalNone();
    var parts := starts + [|points|];
    var totalArea, numX, numY := 0.0, 0.0, 0.0;
    for i := 0 to |parts| - 1
      invariant Weighted(totalArea, numX, numY) == Total(rings[..i])
    {
      var ring := Slice(points, parts[i], parts[i + 1]);
      assert ring == rings[i];
      TotalSnoc(rings[..i], rings[i]);
      assert rings[..i] + [rings[i]] == rings[..i + 1];
      if |ring| >= 4 {
        if ring[0] != ring[|ring| - 1] {
          ring := ring + [ring[0]];
        }
        var area, wx, wy := RingAreaAndCentroid(ring);
        totalArea := totalArea + area;
        numX := numX + wx;
        numY := numY + wy;
      }
    }
    assert rings[..|starts|] == rings;
    if totalArea == 0.0 {
      return Err(ZeroTotalArea);
    }
    return Ok(Centroid(numX / totalArea, numY / totalArea, Abs(totalArea)));
  }

  lemma TotalNone()
    ensures Total([]) == NOTHING
  {
  }

  lemma TotalSnoc(parts: seq<Chain>, part: Chain)
    ensures Total(parts + [part]) == Total(parts).Plus(PartTerms(part))
  {
    assert (parts + [part])[..|parts|] == parts;
  }

  lemma {:induction false} TotalAppend(xs: seq<Chain>, ys: seq<Chain>)
    ensures Total(xs + ys) == Total(xs).Plus(Total(ys))
  {
    hide PartTerms;
    if ys == [] {
      assert xs + ys == xs;
    } else {
      assert (xs + ys)[..|xs + ys| - 1] == xs + ys[..|ys| - 1];
      TotalAppend(xs, ys[..|ys| - 1]);
    }
  }

  // ---------------------------------------------------------- affine maps ---

  /** How an affine map moves weighted terms. */
  function MovedTerms(t: Affine, w: Weighted): Weighted {
    var k := t.Det();
    Weighted(k * w.area, k * (t.a * w.wx + t.b * w.wy + t.e * w.area), k * (t.c * w.wx + t.d * w.wy + t.f * w.area))
  }

  function MovedParts(t: Affine, parts: seq<Chain>): (r: seq<Chain>)
    ensures |r| == |parts|
    ensures forall i :: 0 <= i < |parts| ==> r[i] == Mapped(t, parts[i])
  {
    if parts == [] then [] else MovedParts(t, parts[..|parts| - 1]) + [Mapped(t, parts[|parts| - 1])]
  }

  lemma ApplyIsInjective(t: Affine, p: Point, q: Point)
    requires t.Det() != 0.0 && t.Apply(p) == t.Apply(q)
    ensures p == q
  {
    var u, v := p.x - q.x, p.y - q.y;
    assert t.a * u + t.b * v == 0.0 && t.c * u + t.d * v == 0.0;
    assert t.Det() * u == t.d * (t.a * u + t.b * v) - t.b * (t.c * u + t.d * v);
    assert t.Det() * v == t.a * (t.c * u + t.d * v) - t.c * (t.a * u + t.b * v);
    NonZeroFactor(t.Det(), u);
    NonZeroFactor(t.Det(), v);
  }

  lemma NonZeroFactor(k: real, u: real)
    requires k != 0.0 && k * u == 0.0
    ensures u == 0.0
  {
  }

  lemma ClosingCommutes(t: Affine, ring: Chain)
    requires t.Det() != 0.0 && ring != []
    ensures CloseRing(Mapped(t, ring)) == Mapped(t, CloseRing(ring))
  {
    hide Affine.Apply, Affine.Det;
    var last := ring[|ring| - 1];
    if ring[0] != last && t.Apply(ring[0]) == t.Apply(last) {
      ApplyIsInjective(t, ring[0], last);
    }
  }

  lemma HalvesAndSixths(t: Affine, s: Sums)
    requires t.Det() != 0.0
    ensures FromSums(AffineSums(t, s)) == MovedTerms(t, FromSums(s))
  {
    hide Affine.Det;
    var k := t.Det();
    var moved := AffineSums(t, s);
    assert moved.a2 == k * s.a2;
    if s.a2 == 0.0 {
      assert moved.a2 == 0.0;
    } else {
      if k * s.a2 == 0.0 { NonZeroFactor(k, s.a2); }
      assert k * s.a2 / 2.0 == k * (s.a2 / 2.0);
      SixthOf(k, t.a, t.b, t.e, s.cx, s.cy, s.a2);
      SixthOf(k, t.c, t.d, t.f, s.cx, s.cy, s.a2);
    }
  }

  lemma SixthOf(k: real, a: real, b: real, e: real, cx: real, cy: real, a2: real)
    ensures (k * (a * cx + b * cy) + 3.0 * e * (k * a2)) / 6.0 == k * (a * (cx / 6.0) + b * (cy / 6.0) + e * (a2 / 2.0))
  {
  }

  lemma PartTermsMove(t: Affine, part: Chain)
    requires t.Det() != 0.0
    ensures PartTerms(Mapped(t, part)) == MovedTerms(t, PartTerms(part))
  {
    hide Affine.Apply, Affine.Det, SumsOf, FromSums, AffineSums, MovedTerms, CloseRing;
    MovedNothing(t);

    if |part| >= 4 {
      ClosingCommutes(t, part);
      SumsAffine(t, CloseRing(part));
      HalvesAndSixths(t, SumsOf(CloseRing(part)));
    }
  }

  lemma MovedPlus(t: Affine, v: Weighted, w: Weighted)
    ensures MovedTerms(t, v.Plus(w)) == MovedTerms(t, v).Plus(MovedTerms(t, w))
  {
    hide Affine.Det;
    var k, both := t.Det(), v.Plus(w);
    assert k * both.area == k * v.area + k * w.area;
    MovedMoment(k, t.a, t.b, t.e, both, v, w);
    MovedMoment(k, t.c, t.d, t.f, both, v, w);
  }

  lemma MovedMoment(k: real, a: real, b: real, e: real, both: Weighted, v: Weighted, w: Weighted)
    requires both == v.Plus(w)
    ensures k * (a * both.wx + b * both.wy + e * both.area) ==
            k * (a * v.wx + b * v.wy + e * v.area) + k * (a * w.wx + b * w.wy + e * w.area)
  {
    assert a * both.wx == a * v.wx + a * w.wx;
    assert b * both.wy == b * v.wy + b * w.wy;
    assert e * both.area == e * v.area + e * w.area;
  }

  lemma {:induction false} TotalMoves(t: Affine, parts: seq<Chain>)
    requires t.Det() != 0.0
    ensures Total(MovedParts(t, parts)) == MovedTerms(t, Total(parts))
  {
    hide Affine.Det, PartTerms, MovedTerms;
    if parts == [] {
      MovedNothing(t);
    } else {
      var init, last := parts[..|parts| - 1], parts[|parts| - 1];
      TotalMoves(t, init);
      PartTermsMove(t, last);
      MovedPlus(t, Total(init), PartTerms(last));
      TotalSnoc(MovedParts(t, init), Mapped(t, last));
    }
  }

  lemma MovedNothing(t: Affine)
    ensures MovedTerms(t, NOTHING) == NOTHING
  {
  }

  lemma Quotient(k: real, a: real, b: real, e: real, w: Weighted, n: real, d: real)
    requires k != 0.0 && w.area != 0.0
    requires n == k * (a * w.wx + b * w.wy + e * w.area) && d == k * w.area
    ensures d != 0.0 && n / d == a * (w.wx / w.area) + b * (w.wy / w.area) + e
  {
    if d == 0.0 { NonZeroFactor(k, w.area); }
    var x, y := w.wx / w.area, w.wy / w.area;
    var q := a * x + b * y + e;
    assert x * w.area == w.wx && y * w.area == w.wy;
    assert q * w.area == a * w.wx + b * w.wy + e * w.area by {
      assert a * x * w.area == a * (x * w.area);
      assert b * y * w.area == b * (y * w.area);
    }
    assert q * (k * w.area) == k * (q * w.area);
    DivideBack(q, d, n);
  }

  lemma DivideBack(q: real, d: real, n: real)
    requires d != 0.0 && q * d == n
    ensures n / d == q
  {
  }

  lemma AbsOfProduct(k: real, r: real, d: real)
    requires d == k * r
    ensures Abs(d) == Abs(k) * Abs(r)
  {
  }

  function ScaledArea(t: Affine, area: real): real {
    Abs(t.Det()) * area
  }

  /** What the map does to a result: the point moves along, the area scales. */
  function MovedResult(t: Affine, r: Result<Centroid, Error>): Result<Centroid, Error> {
    match r
    case Err(e) => Err(e)
    case Ok(c) => Ok(Centroid(t.AtX(c.x, c.y), t.AtY(c.x, c.y), ScaledArea(t, c.area)))
  }

  lemma FromMovedTotal(t: Affine, w: Weighted)
    requires t.Det() != 0.0
    ensures FromTotal(MovedTerms(t, w)) == MovedResult(t, FromTotal(w))
  {
    hide Affine.Det, Abs;
    var moved := MovedTerms(t, w);
    if w.area != 0.0 {
      Quotient(t.Det(), t.a, t.b, t.e, w, moved.wx, moved.area);
      Quotient(t.Det(), t.c, t.d, t.f, w, moved.wy, moved.area);
      AbsOfProduct(t.Det(), w.area, moved.area);
      assert moved.wx / moved.area == t.AtX(w.wx / w.area, w.wy / w.area);
      assert moved.wy / moved.area == t.AtY(w.wx / w.area, w.wy / w.area);
      assert Abs(moved.area) == ScaledArea(t, Abs(w.area));
      hide Affine.AtX, Affine.AtY, ScaledArea, MovedTerms;
      assert FromTotal(w) == Ok(Centroid(w.wx / w.area, w.wy / w.area, Abs(w.area)));
    } else {
      assert moved.area == 0.0;
    }
  }

  /**
   The centroid goes along with every invertible affine map of the shape, and the area
   with its determinant; a shape the source refuses stays refused.
   */
  lemma CentroidIsAffine(t: Affine, parts: seq<Chain>)
    requires t.Det() != 0.0
    ensures CentroidOf(MovedParts(t, parts)) == MovedResult(t, CentroidOf(parts))
  {
    hide Affine.Det, Total, FromTotal, MovedTerms, MovedResult;
    TotalMoves(t, parts);
    FromMovedTotal(t, Total(parts));
  }

  /** Mapping a shape's points maps its rings. */
  lemma PartsMove(t: Affine, starts: seq<nat>, points: Chain)
    ensures Parts(starts, Mapped(t, points)) == MovedParts(t, Parts(starts, points))
  {
    hide Slice;
    forall i | 0 <= i < |starts|
      ensures PartAt(starts, Mapped(t, points), i) == Mapped(t, PartAt(starts, points, i))
    {
      SliceMoves(t, points, starts[i], if i + 1 < |starts| then starts[i + 1] else |points|);
    }
  }

  lemma SliceMoves(t: Affine, points: Chain, start: nat, end: nat)
    ensures Slice(Mapped(t, points), start, end) == Mapped(t, Slice(points, start, end))
  {
    hide Affine.Apply;
    var hi := if end < |points| then end else |points|;
    if start < hi {
      assert Mapped(t, points)[start..hi] == Mapped(t, points[start..hi]);
    }
  }

  // --------------------------------------------------- turning rings around ---

  function ReversedParts(parts: seq<Chain>): (r: seq<Chain>)
    ensures |r| == |parts|
  {
    if parts == [] then [] else ReversedParts(parts[..|parts| - 1]) + [Reversed(parts[|parts| - 1])]
  }

  /** Closing after turning around is turning around after closing, up to the first vertex. */
  lemma ClosedReversal(ring: Chain)
    requires ring != []
    ensures SumsOf(CloseRing(Reversed(ring))) == SumsOf(CloseRing(ring)).Negated()
  {
    hide SumsOf;
    var closed := CloseRing(ring);
    SumsReversed(closed);
    if ring[0] != ring[|ring| - 1] {
      SumsRotated(Reversed(closed), 1);
      assert Rotated(Reversed(closed), 1) == CloseRing(Reversed(ring));
    }
  }

  lemma PartReversed(part: Chain)
    ensures PartTerms(Reversed(part)) == PartTerms(part).Negated()
  {
    hide SumsOf;
    if |part| >= 4 {
      ClosedReversal(part);
    }
  }

  lemma {:induction false} TotalReversed(parts: seq<Chain>)
    ensures Total(ReversedParts(parts)) == Total(parts).Negated()
  {
    hide PartTerms;
    if parts != [] {
      TotalReversed(parts[..|parts| - 1]);
      PartReversed(parts[|parts| - 1]);
      TotalSnoc(ReversedParts(parts[..|parts| - 1]), Reversed(parts[|parts| - 1]));
    }
  }

  /** Reversing every ring, closed or not, leaves the centroid and the area as they are. */
  lemma CentroidIgnoresDirection(parts: seq<Chain>)
    ensures CentroidOf(ReversedParts(parts)) == CentroidOf(parts)
  {
    hide Total;
    TotalReversed(parts);
    var w := Total(parts);
    if w.area != 0.0 {
      NegatedQuotient(w.wx, w.area);
      NegatedQuotient(w.wy, w.area);
    }
  }

  lemma NegatedQuotient(n: real, d: real)
    requires d != 0.0
    ensures (-n) / (-d) == n / d
  {
    assert (n / d) * (-d) == -n;
    DivideBack(n / d, -d, -n);
  }

  // --------------------------------------------------------- start vertices ---

  ghost predicate StartsElsewhere(part: Chain, other: Chain) {
    Closed(part) && exists k :: 0 <= k < |part| && other == Rotated(part, k)
  }

  /** Which vertex each closed ring starts at does not matter. */
  lemma {:induction false} TotalIgnoresStarts(parts: seq<Chain>, others: seq<Chain>)
    requires |parts| == |others|
    requires forall i :: 0 <= i < |parts| ==> StartsElsewhere(parts[i], others[i])
    ensures Total(parts) == Total(others)
  {
    hide SumsOf;
    if parts != [] {
      var n := |parts| - 1;
      TotalIgnoresStarts(parts[..n], others[..n]);
      assert StartsElsewhere(parts[n], others[n]);
      var k :| 0 <= k < |parts[n]| && others[n] == Rotated(parts[n], k);
      SumsRotated(parts[n], k);
    }
  }

  // ------------------------------------------------------- cutting a ring ---

  /** The moments a ring of zero area loses. */
  function Dropped(s: Sums): Weighted {
    if s.a2 == 0.0 then Weighted(0.0, s.cx / 6.0, s.cy / 6.0) else NOTHING
  }

  lemma KeptAndDropped(s: Sums)
    ensures FromSums(s).Plus(Dropped(s)) == Weighted(s.a2 / 2.0, s.cx / 6.0, s.cy / 6.0)
  {
  }

  lemma ShortClosedIsFlat(ring: Chain)
    requires Closed(ring) && |ring| < 4
    ensures SumsOf(ring) == ZERO
  {
    hide Edge, SumsOf, Sums.Plus, Sums.Negated;
    if |ring| == 1 {
      NoEdges(ring);
    } else if |ring| == 2 {
      EdgeSums(ring[0], ring[1]);
      assert ring == [ring[0], ring[1]];
      FlatEdge(ring[0]);
    } else {
      assert ring == [ring[0], ring[1]] + [ring[1], ring[0]][1..];
      SumsJoin([ring[0], ring[1]], [ring[1], ring[0]]);
      EdgeSums(ring[0], ring[1]);
      EdgeSums(ring[1], ring[0]);
      EdgeReversed(ring[0], ring[1]);
      ThereAndBack(Edge(ring[0], ring[1]));
    }
  }

  lemma NoEdges(ring: Chain)
    requires |ring| == 1
    ensures SumsOf(ring) == ZERO
  {
  }

  lemma ThereAndBack(s: Sums)
    ensures s.Plus(s.Negated()) == ZERO
  {
  }

  lemma FlatEdge(p: Point)
    ensures Edge(p, p) == ZERO
  {
  }

  lemma ClosedPartTerms(ring: Chain)
    requires Closed(ring)
    ensures PartTerms(ring) == FromSums(SumsOf(ring))
  {
    hide SumsOf;
    if |ring| < 4 {
      ShortClosedIsFlat(ring);
    }
  }

  /**
   Replacing a ring by the two pieces of a chord cut keeps the signed area always, and keeps
   the moments exactly when the moments dropped from zero-area rings agree.
   */
  lemma CutKeepsTotal(before: seq<Chain>, ring: Chain, after: seq<Chain>, i: nat, j: nat)
    requires Closed(ring) && i < j < |ring|
    ensures var outer, inner := OuterPiece(ring, i, j), InnerPiece(ring, i, j);
            var whole, cut := Total(before + [ring] + after), Total(before + [outer, inner] + after);
            && whole.area == cut.area
            && (whole == cut <==>
                Dropped(SumsOf(ring)) == Dropped(SumsOf(outer)).Plus(Dropped(SumsOf(inner))))
  {
    hide SumsOf, PartTerms, FromSums, Dropped, OuterPiece, InnerPiece, Total;
    var outer, inner := OuterPiece(ring, i, j), InnerPiece(ring, i, j);
    SumsCut(ring, i, j);
    TotalAppend(before + [ring], after);
    TotalSnoc(before, ring);
    TotalAppend(before + [outer, inner], after);
    assert before + [outer, inner] == before + [outer] + [inner];
    TotalSnoc(before + [outer], inner);
    TotalSnoc(before, outer);
    ClosedPartTerms(ring);
    ClosedPartTerms(outer);
    ClosedPartTerms(inner);
    KeptAndDropped(SumsOf(ring));
    KeptAndDropped(SumsOf(outer));
    KeptAndDropped(SumsOf(inner));
    NothingDropsArea(SumsOf(ring));
    NothingDropsArea(SumsOf(outer));
    NothingDropsArea(SumsOf(inner));
  }

  lemma NothingDropsArea(s: Sums)
    ensures Dropped(s).area == 0.0
  {
  }

  lemma SameQuotient(x: real, y: real, k: real)
    requires k != 0.0
    ensures x / k == y / k <==> x == y
  {
    assert x == (x / k) * k && y == (y / k) * k;
  }

  lemma SameCentroidIff(v: Weighted, w: Weighted)
    requires v.area == w.area
    ensures FromTotal(v) == FromTotal(w) <==> v.area == 0.0 || v == w
  {
    if v.area != 0.0 {
      SameQuotient(v.wx, w.wx, v.area);
      SameQuotient(v.wy, w.wy, v.area);
    }
  }

  /**
   The cut polygon has the centroid of the whole one exactly when both are refused for their
   total area, or the moments dropped from zero-area rings agree.
   */
  lemma CutKeepsCentroidIff(before: seq<Chain>, ring: Chain, after: seq<Chain>, i: nat, j: nat)
    requires Closed(ring) && i < j < |ring|
    ensures var outer, inner := OuterPiece(ring, i, j), InnerPiece(ring, i, j);
            CentroidOf(before + [outer, inner] + after) == CentroidOf(before + [ring] + after) <==>
            || Total(before + [ring] + after).area == 0.0
            || Dropped(SumsOf(ring)) == Dropped(SumsOf(outer)).Plus(Dropped(SumsOf(inner)))
  {
    hide SumsOf, Total, OuterPiece, InnerPiece, FromTotal, Dropped;
    CutKeepsTotal(before, ring, after, i, j);
    SameCentroidIff(Total(before + [OuterPiece(ring, i, j), InnerPiece(ring, i, j)] + after),
                    Total(before + [ring] + after));
  }

  /** When neither the ring nor a piece has zero area, the cut polygon has the same centroid. */
  lemma CutKeepsCentroid(before: seq<Chain>, ring: Chain, after: seq<Chain>, i: nat, j: nat)
    requires Closed(ring) && i < j < |ring|
    requires SumsOf(ring).a2 != 0.0
    requires SumsOf(OuterPiece(ring, i, j)).a2 != 0.0 && SumsOf(InnerPiece(ring, i, j)).a2 != 0.0
    ensures CentroidOf(before + [OuterPiece(ring, i, j), InnerPiece(ring, i, j)] + after) ==
            CentroidOf(before + [ring] + after)
  {
    hide SumsOf, Total, OuterPiece, InnerPiece, FromTotal;
    CutKeepsCentroidIff(before, ring, after, i, j);
  }

  ghost predicate IsBowTie(t: Chain) {
    && |t| == 5
    && t[0] == t[4] == Point(0.0, 0.0)
    && t[1] == Point(1.0, 1.0) && t[2] == Point(1.0, 0.0) && t[3] == Point(0.0, 1.0)
  }

  lemma BowTieHalves(t: Chain)
    requires IsBowTie(t)
    ensures SumsOf([t[0], t[1], t[3], t[0]]) == Sums(1.0, 1.0, 2.0)
    ensures SumsOf([t[1], t[2], t[3], t[1]]) == Sums(-1.0, -2.0, -2.0)
  {
    hide SumsOf;
    TriangleSums(t[0], t[1], t[3]);
    TriangleSums(t[1], t[2], t[3]);
  }

  /**
   A bow tie has zero area, so the source drops the moments it does have; cut at its
   crossing, neither half has zero area and both keep theirs.
   */
  lemma BowTieLosesItsMoments(t: Chain)
    requires IsBowTie(t)
    ensures Closed(t) && SumsOf(t) == Sums(0.0, -1.0, 0.0)
    ensures PartTerms(t) == NOTHING
  {
    hide SumsOf;
    SumsCut(t, 1, 3);
    BowTieHalves(t);
    assert OuterPiece(t, 1, 3) == [t[0], t[1], t[3], t[0]];
    assert InnerPiece(t, 1, 3) == [t[1], t[2], t[3], t[1]];
    ClosedPartTerms(t);
  }

  lemma BowTieDrops(t: Chain)
    requires IsBowTie(t)
    ensures |t| == 5 && Closed(t)
    ensures Dropped(SumsOf(t)) == Weighted(0.0, -1.0 / 6.0, 0.0)
    ensures Dropped(SumsOf(OuterPiece(t, 1, 3))) == NOTHING == Dropped(SumsOf(InnerPiece(t, 1, 3)))
  {
    hide SumsOf;
    BowTieLosesItsMoments(t);
    BowTieHalves(t);
    assert OuterPiece(t, 1, 3) == [t[0], t[1], t[3], t[0]];
    assert InnerPiece(t, 1, 3) == [t[1], t[2], t[3], t[1]];
  }

  /**
   Among whatever other rings, cutting a bow tie into its two halves moves the centroid of
   the polygon unless the polygon is refused for its total area either way.
   */
  lemma BowTieCutMovesCentroidIff(before: seq<Chain>, t: Chain, after: seq<Chain>)
    requires IsBowTie(t)
    ensures CentroidOf(before + [OuterPiece(t, 1, 3), InnerPiece(t, 1, 3)] + after) == CentroidOf(before + [t] + after)
       <==> Total(before + [t] + after).area == 0.0
  {
    hide SumsOf, CentroidOf, Total, Dropped, OuterPiece, InnerPiece, Closed, IsBowTie;
    BowTieDrops(t);
    CutKeepsCentroidIff(before, t, after, 1, 3);
  }

  /** Alone it is refused, whole and cut; beside a triangle both have a centroid, and not the same. */
  lemma BowTieBesideATriangle(t: Chain, o: Point, p: Point, q: Point)
    requires IsBowTie(t)
    ensures CentroidOf([t]) == Err(ZeroTotalArea) == CentroidOf([OuterPiece(t, 1, 3), InnerPiece(t, 1, 3)])
    ensures Turn(o, p, q) != 0.0 ==>
              && CentroidOf([t, [o, p, q, o]]).Ok?
              && CentroidOf([t, [o, p, q, o]]) !=
                 CentroidOf([OuterPiece(t, 1, 3), InnerPiece(t, 1, 3), [o, p, q, o]])
  {
    hide SumsOf, Total, PartTerms, Turn, OuterPiece, InnerPiece;
    var ring := [o, p, q, o];
    var outer, inner := OuterPiece(t, 1, 3), InnerPiece(t, 1, 3);
    BowTieLosesItsMoments(t);
    TriangleArea(o, p, q);
    OneRing(t);
    TotalSnoc([t], ring);
    assert [] + [t] + [] == [t] && [] + [t] + [ring] == [t] + [ring] == [t, ring];
    assert [] + [outer, inner] + [] == [outer, inner] && [] + [outer, inner] + [ring] == [outer, inner, ring];
    BowTieCutMovesCentroidIff([], t, []);
    BowTieCutMovesCentroidIff([], t, [ring]);
  }

  lemma TriangleArea(o: Point, p: Point, q: Point)
    ensures PartTerms([o, p, q, o]).area == Turn(o, p, q) / 2.0
  {
    hide SumsOf, Turn;
    TriangleSums(o, p, q);
    ClosedPartTerms([o, p, q, o]);
  }

  // ------------------------------------------------------------- triangles ---

  /** Twice the signed area of the triangle o, p, q. */
  function Turn(o: Point, p: Point, q: Point): real {
    (p.x - o.x) * (q.y - o.y) - (q.x - o.x) * (p.y - o.y)
  }

  lemma TriangleSums(o: Point, p: Point, q: Point)
    ensures SumsOf([o, p, q, o]).a2 == Turn(o, p, q)
    ensures SumsOf([o, p, q, o]).cx == Turn(o, p, q) * (o.x + p.x + q.x)
    ensures SumsOf([o, p, q, o]).cy == Turn(o, p, q) * (o.y + p.y + q.y)
  {
    hide Cross, Turn, Moment, SumsOf;
    ThreeEdges(o, p, q);
    TriangleTurn(o, p, q);
    TriangleMoment(o.x, p.x, q.x, Cross(o, p), Cross(p, q), Cross(q, o), Turn(o, p, q));
    TriangleMoment(o.y, p.y, q.y, Cross(o, p), Cross(p, q), Cross(q, o), Turn(o, p, q));
  }

  lemma TriangleTurn(o: Point, p: Point, q: Point)
    ensures Turn(o, p, q) == Cross(o, p) + Cross(p, q) + Cross(q, o)
    ensures o.x * Cross(p, q) + p.x * Cross(q, o) + q.x * Cross(o, p) == 0.0
    ensures o.y * Cross(p, q) + p.y * Cross(q, o) + q.y * Cross(o, p) == 0.0
  {
  }

  lemma ThreeEdges(o: Point, p: Point, q: Point)
    ensures SumsOf([o, p, q, o]) == Edge(o, p).Plus(Edge(p, q).Plus(Edge(q, o)))
  {
    hide SumsOf, Edge, Sums.Plus;
    EdgeSums(o, p);
    EdgeSums(p, q);
    EdgeSums(q, o);
    SumsJoin([p, q], [q, o]);
    assert [p, q] + [q, o][1..] == [p, q, o];
    SumsJoin([o, p], [p, q, o]);
    assert [o, p] + [p, q, o][1..] == [o, p, q, o];
  }

  lemma TriangleMoment(u: real, v: real, w: real, c0: real, c1: real, c2: real, turn: real)
    requires turn == c0 + c1 + c2 && u * c1 + v * c2 + w * c0 == 0.0
    ensures Moment(u, v, c0) + (Moment(v, w, c1) + Moment(w, u, c2)) == turn * (u + v + w)
  {
    SpreadThree(c0, c1, c2, turn, u);
    SpreadThree(c0, c1, c2, turn, v);
    SpreadThree(c0, c1, c2, turn, w);
    SpreadThree(u, v, w, u + v + w, turn);
    SpreadTwo(u, v, c0);
    SpreadTwo(v, w, c1);
    SpreadTwo(w, u, c2);
  }

  lemma SpreadThree(a: real, b: real, c: real, sum: real, k: real)
    requires sum == a + b + c
    ensures sum * k == a * k + b * k + c * k && k * sum == sum * k
  {
  }

  lemma SpreadTwo(a: real, b: real, k: real)
    ensures (a + b) * k == a * k + b * k
  {
  }

  /** A triangle's centroid is the mean of its corners and its area half their turn. */
  lemma TriangleCentroid(o: Point, p: Point, q: Point)
    requires Turn(o, p, q) != 0.0
    ensures CentroidOf([[o, p, q, o]]) ==
            Ok(Centroid((o.x + p.x + q.x) / 3.0, (o.y + p.y + q.y) / 3.0, Abs(Turn(o, p, q) / 2.0)))
  {
    hide SumsOf, Turn, Total, Abs;
    var ring := [o, p, q, o];
    var s := SumsOf(ring);
    TriangleSums(o, p, q);
    ClosedPartTerms(ring);
    OneRing(ring);
    ThirdOf(s.a2, o.x + p.x + q.x, s.cx);
    ThirdOf(s.a2, o.y + p.y + q.y, s.cy);
  }

  lemma OneRing(ring: Chain)
    ensures Total([ring]) == PartTerms(ring)
  {
    hide PartTerms;
    TotalSnoc([], ring);
    assert [] + [ring] == [ring];
  }

  lemma ThirdOf(k: real, u: real, m: real)
    requires k != 0.0 && m == k * u
    ensures (m / 6.0) / (k / 2.0) == u / 3.0
  {
    assert (u / 3.0) * (k / 2.0) == m / 6.0;
    DivideBack(u / 3.0, k / 2.0, m / 6.0);
  }

  // ----------------------------------------------------------------- fans ---

  /** The triangles that every edge of a chain makes with an apex, added up. */
  function Fan(o: Point, pts: Chain): Sums {
    if |pts| < 2 then ZERO
    else TriangleTerms(o, pts[0], pts[1]).Plus(Fan(o, pts[1..]))
  }

  /** Twice the area of the triangle o, p, q, and that times the sum of its corners. */
  function TriangleTerms(o: Point, p: Point, q: Point): Sums {
    var k := Turn(o, p, q);
    Sums(k, k * (o.x + p.x + q.x), k * (o.y + p.y + q.y))
  }

  lemma {:induction false} FanOfChain(o: Point, pts: Chain)
    requires pts != []
    ensures Fan(o, pts) == SumsOf(pts).Plus(Edge(o, pts[0])).Plus(Edge(pts[|pts| - 1], o))
  {
    hide Edge, TriangleTerms, Sums.Plus, Sums.Negated;
    if |pts| == 1 {
      EdgeReversed(o, pts[0]);
      ZeroIsNeutral(Edge(o, pts[0]));
      SelfCancel(ZERO, Edge(o, pts[0]));
      ZeroIsNeutral(Edge(o, pts[0]).Plus(Edge(o, pts[0]).Negated()));
    } else {
      FanOfChain(o, pts[1..]);
      TriangleOfEdges(o, pts[0], pts[1]);
      EdgeReversed(pts[1], o);
      FanStep(Edge(o, pts[0]), Edge(pts[0], pts[1]), Edge(pts[1], o), SumsOf(pts[1..]), Edge(pts[|pts| - 1], o));
    }
  }

  lemma FanStep(r: Sums, s: Sums, t: Sums, u: Sums, v: Sums)
    ensures r.Plus(s).Plus(t).Plus(u.Plus(t.Negated()).Plus(v)) == s.Plus(u).Plus(r).Plus(v)
  {
  }

  lemma TriangleOfEdges(o: Point, p: Point, q: Point)
    ensures TriangleTerms(o, p, q) == Edge(o, p).Plus(Edge(p, q)).Plus(Edge(q, o))
  {
    hide Cross, Turn, Moment;
    TriangleTurn(o, p, q);
    TriangleMoment(o.x, p.x, q.x, Cross(o, p), Cross(p, q), Cross(q, o), Turn(o, p, q));
    TriangleMoment(o.y, p.y, q.y, Cross(o, p), Cross(p, q), Cross(q, o), Turn(o, p, q));
  }

  /**
   The shoelace sums of a closed ring are those of the triangles its edges make with any
   point whatever: the centroid is the area-weighted mean of their centroids.
   */
  lemma FanFromAnyApex(o: Point, ring: Chain)
    requires Closed(ring)
    ensures SumsOf(ring) == Fan(o, ring)
  {
    hide Edge, SumsOf, Fan;
    FanOfChain(o, ring);
    EdgeReversed(o, ring[0]);
  }

  // ------------------------------------------------------ the skipped rings ---

  /** A skipped ring had an area to lose exactly when it was an open triangle. */
  lemma SkippedArea(part: Chain)
    requires part != [] && |part| < 4
    ensures PartTerms(part) == NOTHING
    ensures SumsOf(CloseRing(part)).a2 != 0.0 <==> |part| == 3 && Turn(part[0], part[1], part[2]) != 0.0
  {
    hide Edge;
    var closed := CloseRing(part);
    if |closed| < 4 {
      ShortClosedIsFlat(closed);
      if |part| == 3 {
        assert part[0] == part[2];
        assert Turn(part[0], part[1], part[0]) == 0.0;
      }
    } else {
      assert closed == [part[0], part[1], part[2], part[0]];
      TriangleSums(part[0], part[1], part[2]);
    }
  }
}
