/**
 The shoelace sums of scripts/derive_zone_centroids.py over exact reals, and their laws
 on chains of points.
 */
module Shoelace {

  datatype Point = Point(x: real, y: real)

  type Chain = seq<Point>

  function Cross(p: Point, q: Point): real {
    p.x * q.y - q.x * p.y
  }

  /** What one edge adds to `a2`, `cx` and `cy`. */
  datatype Sums = Sums(a2: real, cx: real, cy: real) {
    function Plus(s: Sums): Sums {
      Sums(a2 + s.a2, cx + s.cx, cy + s.cy)
    }
    function Negated(): Sums {
      Sums(-a2, -cx, -cy)
    }
  }

  const ZERO := Sums(0.0, 0.0, 0.0)

  function Moment(u: real, v: real, cross: real): real {
    (u + v) * cross
  }

  function Edge(p: Point, q: Point): Sums {
    var cross := Cross(p, q);
    Sums(cross, Moment(p.x, q.x, cross), Moment(p.y, q.y, cross))
  }

  /** The three sums over every consecutive pair of points. */
  function SumsOf(pts: Chain): Sums {
    if |pts| < 2 then ZERO else Edge(pts[0], pts[1]).Plus(SumsOf(pts[1..]))
  }

  predicate Closed(pts: Chain) {
    pts != [] && pts[0] == pts[|pts| - 1]
  }

  // ----------------------------------------------------- cutting and joining ---

  lemma {:induction false} SumsJoin(xs: Chain, ys: Chain)
    requires xs != [] && ys != [] && xs[|xs| - 1] == ys[0]
    ensures SumsOf(xs + ys[1..]) == SumsOf(xs).Plus(SumsOf(ys))
  {
    hide Edge;
    if |xs| == 1 {
      assert xs + ys[1..] == ys;
    } else {
      assert (xs + ys[1..])[1..] == xs[1..] + ys[1..];
      SumsJoin(xs[1..], ys);
    }
  }

  lemma SumsSplit(pts: Chain, k: nat)
    requires k < |pts|
    ensures SumsOf(pts) == SumsOf(pts[..k + 1]).Plus(SumsOf(pts[k..]))
  {
    SumsJoin(pts[..k + 1], pts[k..]);
    assert pts[..k + 1] + pts[k..][1..] == pts;
  }

  lemma EdgeReversed(p: Point, q: Point)
    ensures Edge(q, p) == Edge(p, q).Negated()
  {
    assert Cross(q, p) == -Cross(p, q);
    assert (q.x + p.x) * Cross(q, p) == -((p.x + q.x) * Cross(p, q));
    assert (q.y + p.y) * Cross(q, p) == -((p.y + q.y) * Cross(p, q));
  }

  function Reversed(pts: Chain): (r: Chain)
    ensures |r| == |pts|
    ensures forall i :: 0 <= i < |pts| ==> r[i] == pts[|pts| - 1 - i]
  {
    if pts == [] then [] else Reversed(pts[1..]) + [pts[0]]
  }

  /** Walking a chain backwards negates its sums. */
  lemma {:induction false} SumsReversed(pts: Chain)
    ensures SumsOf(Reversed(pts)) == SumsOf(pts).Negated()
  {
    hide Edge;
    if |pts| >= 2 {
      var back := Reversed(pts[1..]);
      SumsReversed(pts[1..]);
      SumsJoin(back, [pts[1], pts[0]]);
      assert back + [pts[1], pts[0]][1..] == Reversed(pts);
      assert SumsOf([pts[1], pts[0]]) == Edge(pts[1], pts[0]).Plus(SumsOf([pts[0]]));
      EdgeReversed(pts[0], pts[1]);
    }
  }

  /** A closed ring told from another of its vertices. */
  function Rotated(ring: Chain, k: nat): Chain
    requires k < |ring|
  {
    ring[k..] + ring[1..k + 1]
  }

  /** The sums of a closed ring do not depend on the vertex it starts at. */
  lemma SumsRotated(ring: Chain, k: nat)
    requires Closed(ring) && k < |ring|
    ensures Closed(Rotated(ring, k)) && |Rotated(ring, k)| == |ring|
    ensures SumsOf(Rotated(ring, k)) == SumsOf(ring)
  {
    hide SumsOf, Sums.Plus;
    SumsSplit(ring, k);
    SumsJoin(ring[k..], ring[..k + 1]);
    assert ring[..k + 1][1..] == ring[1..k + 1];
    Commute(SumsOf(ring[..k + 1]), SumsOf(ring[k..]));
  }

  lemma Commute(r: Sums, s: Sums)
    ensures r.Plus(s) == s.Plus(r)
  {
  }

  /** The two rings a chord from vertex i to vertex j cuts a closed ring into. */
  function OuterPiece(ring: Chain, i: nat, j: nat): Chain
    requires i < j < |ring|
  {
    ring[..i + 1] + ring[j..]
  }

  function InnerPiece(ring: Chain, i: nat, j: nat): Chain
    requires i < j < |ring|
  {
    ring[i..j + 1] + [ring[i]]
  }

  /** The chord is walked once each way, so the pieces' sums add up to the ring's. */
  lemma SumsCut(ring: Chain, i: nat, j: nat)
    requires Closed(ring) && i < j < |ring|
    ensures Closed(OuterPiece(ring, i, j)) && Closed(InnerPiece(ring, i, j))
    ensures SumsOf(ring) == SumsOf(OuterPiece(ring, i, j)).Plus(SumsOf(InnerPiece(ring, i, j)))
  {
    PiecesAreClosed(ring, i, j);
    hide Closed, OuterPiece, InnerPiece, Edge, SumsOf, Sums.Plus, Sums.Negated;
    SumsInThree(ring, i, j);
    OuterSums(ring, i, j);
    InnerSums(ring, i, j);
    EdgeReversed(ring[i], ring[j]);
    Cancel(SumsOf(ring[..i + 1]), SumsOf(ring[i..j + 1]), SumsOf(ring[j..]), Edge(ring[i], ring[j]));
  }

  lemma PiecesAreClosed(ring: Chain, i: nat, j: nat)
    requires Closed(ring) && i < j < |ring|
    ensures Closed(OuterPiece(ring, i, j)) && Closed(InnerPiece(ring, i, j))
  {
  }

  lemma Cancel(r: Sums, s: Sums, t: Sums, u: Sums)
    ensures r.Plus(s).Plus(t) == r.Plus(u).Plus(t).Plus(s.Plus(u.Negated()))
  {
  }

  lemma SumsInThree(ring: Chain, i: nat, j: nat)
    requires i < j < |ring|
    ensures SumsOf(ring) == SumsOf(ring[..i + 1]).Plus(SumsOf(ring[i..j + 1])).Plus(SumsOf(ring[j..]))
  {
    hide SumsOf;
    SumsSplit(ring, i);
    SumsSplit(ring[i..], j - i);
    assert ring[i..][..j - i + 1] == ring[i..j + 1] && ring[i..][j - i..] == ring[j..];
  }

  lemma OuterSums(ring: Chain, i: nat, j: nat)
    requires i < j < |ring|
    ensures SumsOf(OuterPiece(ring, i, j)) ==
            SumsOf(ring[..i + 1]).Plus(Edge(ring[i], ring[j])).Plus(SumsOf(ring[j..]))
  {
    hide SumsOf, Edge;
    var there := [ring[i], ring[j]];
    SumsJoin(ring[..i + 1], there);
    SumsJoin(ring[..i + 1] + there[1..], ring[j..]);
    assert ring[..i + 1] + there[1..] + ring[j..][1..] == OuterPiece(ring, i, j);
    EdgeSums(ring[i], ring[j]);
  }

  lemma InnerSums(ring: Chain, i: nat, j: nat)
    requires i < j < |ring|
    ensures SumsOf(InnerPiece(ring, i, j)) == SumsOf(ring[i..j + 1]).Plus(Edge(ring[j], ring[i]))
  {
    hide SumsOf, Edge;
    var back := [ring[j], ring[i]];
    SumsJoin(ring[i..j + 1], back);
    assert ring[i..j + 1] + back[1..] == InnerPiece(ring, i, j);
    EdgeSums(ring[j], ring[i]);
  }

  lemma EdgeSums(p: Point, q: Point)
    ensures SumsOf([p, q]) == Edge(p, q)
  {
    assert SumsOf([p, q]) == Edge(p, q).Plus(SumsOf([q]));
  }

  // ------------------------------------------------------------- affine maps ---

  /** x' = a x + b y + e and y' = c x + d y + f. */
  datatype Affine = Affine(a: real, b: real, c: real, d: real, e: real, f: real) {
    function Det(): real {
      a * d - b * c
    }
    function AtX(x: real, y: real): real {
      a * x + b * y + e
    }
    function AtY(x: real, y: real): real {
      c * x + d * y + f
    }
    function Apply(p: Point): Point {
      Point(AtX(p.x, p.y), AtY(p.x, p.y))
    }
    /** The map without its translation. */
    function Linear(): Affine {
      this.(e := 0.0, f := 0.0)
    }
  }

  function Shift(e: real, f: real): Affine {
    Affine(1.0, 0.0, 0.0, 1.0, e, f)
  }

  function Mapped(t: Affine, pts: Chain): (r: Chain)
    ensures |r| == |pts|
    ensures forall i :: 0 <= i < |pts| ==> r[i] == t.Apply(pts[i])
  {
    if pts == [] then [] else [t.Apply(pts[0])] + Mapped(t, pts[1..])
  }

  /** How a linear map moves the three sums. */
  function LinearSums(t: Affine, s: Sums): Sums {
    Sums(t.Det() * s.a2, t.Det() * (t.a * s.cx + t.b * s.cy), t.Det() * (t.c * s.cx + t.d * s.cy))
  }

  lemma LinearCross(t: Affine, p: Point, q: Point)
    requires t.e == t.f == 0.0
    ensures Cross(t.Apply(p), t.Apply(q)) == t.Det() * Cross(p, q)
  {
  }

  lemma LinearEdge(t: Affine, p: Point, q: Point)
    requires t.e == t.f == 0.0
    ensures Edge(t.Apply(p), t.Apply(q)) == LinearSums(t, Edge(p, q))
  {
    hide Moment, Cross, Affine.Det;
    LinearCross(t, p, q);
    LinearMoment(t.a, t.b, p, q, t.Apply(p).x, t.Apply(q).x, t.Det(), Cross(p, q), Cross(t.Apply(p), t.Apply(q)));
    LinearMoment(t.c, t.d, p, q, t.Apply(p).y, t.Apply(q).y, t.Det(), Cross(p, q), Cross(t.Apply(p), t.Apply(q)));
  }

  lemma LinearMoment(a: real, b: real, p: Point, q: Point, s: real, r: real, k: real, c: real, cross: real)
    requires s == a * p.x + b * p.y && r == a * q.x + b * q.y && cross == k * c
    ensures Moment(s, r, cross) == k * (a * Moment(p.x, q.x, c) + b * Moment(p.y, q.y, c))
  {
    var u, v := p.x + q.x, p.y + q.y;
    Spread(a, b, u, v, k, c);
    assert s + r == a * u + b * v;
  }

  lemma Spread(a: real, b: real, u: real, v: real, k: real, c: real)
    ensures (a * u + b * v) * (k * c) == k * (a * (u * c) + b * (v * c))
  {
  }

  lemma LinearPlus(t: Affine, r: Sums, s: Sums)
    ensures LinearSums(t, r.Plus(s)) == LinearSums(t, r).Plus(LinearSums(t, s))
  {
    hide Affine.Det;
    var k := t.Det();
    assert k * (t.a * (r.cx + s.cx) + t.b * (r.cy + s.cy)) ==
           k * (t.a * r.cx + t.b * r.cy) + k * (t.a * s.cx + t.b * s.cy);
    assert k * (t.c * (r.cx + s.cx) + t.d * (r.cy + s.cy)) ==
           k * (t.c * r.cx + t.d * r.cy) + k * (t.c * s.cx + t.d * s.cy);
  }

  lemma {:induction false} SumsLinear(t: Affine, pts: Chain)
    requires t.e == t.f == 0.0
    ensures SumsOf(Mapped(t, pts)) == LinearSums(t, SumsOf(pts))
  {
    hide Edge, Affine.Apply, Affine.Det;
    if |pts| >= 2 {
      SumsLinear(t, pts[1..]);
      LinearEdge(t, pts[0], pts[1]);
      LinearPlus(t, Edge(pts[0], pts[1]), SumsOf(pts[1..]));
      assert Mapped(t, pts)[1..] == Mapped(t, pts[1..]);
      assert Mapped(t, pts)[1] == t.Apply(pts[1]);
    }
  }

  function Twist(e: real, f: real, p: Point): real {
    e * p.y - f * p.x
  }

  /** What translation adds at a point; over a closed ring the ends cancel. */
  function Potential(e: real, f: real, p: Point): Sums {
    var w := Twist(e, f, p);
    Sums(w, Pulled(p.x, e, w), Pulled(p.y, f, w))
  }

  function Pulled(u: real, k: real, w: real): real {
    (u + 2.0 * k) * w
  }

  function Lifted(m: real, k: real, a2: real): real {
    m + 3.0 * k * a2
  }

  function ShiftedSums(e: real, f: real, s: Sums): Sums {
    Sums(s.a2, Lifted(s.cx, e, s.a2), Lifted(s.cy, f, s.a2))
  }

  lemma ShiftEdge(e: real, f: real, p: Point, q: Point)
    ensures Edge(Shift(e, f).Apply(p), Shift(e, f).Apply(q)) ==
            ShiftedSums(e, f, Edge(p, q)).Plus(Potential(e, f, q).Plus(Potential(e, f, p).Negated()))
  {
    assert Shift(e, f).Apply(p) == Point(p.x + e, p.y + f) && Shift(e, f).Apply(q) == Point(q.x + e, q.y + f);
    hide Moment, Cross, Twist, Shift, Lifted, Pulled;
    var cross := Cross(Point(p.x + e, p.y + f), Point(q.x + e, q.y + f));
    ShiftCross(e, f, p, q);
    ShiftTwist(e, f, p, q);
    ShiftMoment(e, p.x, q.x, Cross(p, q), Twist(e, f, p), Twist(e, f, q), cross);
    ShiftMoment(f, p.y, q.y, Cross(p, q), Twist(e, f, p), Twist(e, f, q), cross);
  }

  lemma ShiftCross(e: real, f: real, p: Point, q: Point)
    ensures Cross(Point(p.x + e, p.y + f), Point(q.x + e, q.y + f)) == Cross(p, q) + Twist(e, f, q) - Twist(e, f, p)
  {
  }

  lemma ShiftTwist(e: real, f: real, p: Point, q: Point)
    ensures e * Cross(p, q) == p.x * Twist(e, f, q) - q.x * Twist(e, f, p)
    ensures f * Cross(p, q) == p.y * Twist(e, f, q) - q.y * Twist(e, f, p)
  {
  }

  lemma ShiftMoment(k: real, u0: real, u1: real, c: real, w0: real, w1: real, cross: real)
    requires cross == c + w1 - w0 && k * c == u0 * w1 - u1 * w0
    ensures Moment(u0 + k, u1 + k, cross) == Lifted(Moment(u0, u1, c), k, c) + Pulled(u1, k, w1) - Pulled(u0, k, w0)
  {
    SpreadShift(u0, u1, k, u0 + k + (u1 + k), c);
    SpreadShift(u0, u1, k, u0 + k + (u1 + k), w0);
    SpreadShift(u0, u1, k, u0 + k + (u1 + k), w1);
    SpreadCross(u0 + k + (u1 + k), c, w0, w1, cross);
    SpreadShift(u0, u1, 0.0, u0 + u1, c);
    SpreadShift(0.0, u1, k, u1 + 2.0 * k, w1);
    SpreadShift(u0, 0.0, k, u0 + 2.0 * k, w0);
  }

  lemma SpreadShift(a: real, b: real, k: real, sum: real, x: real)
    requires sum == a + b + 2.0 * k
    ensures sum * x == a * x + b * x + 2.0 * (k * x)
  {
  }

  lemma SpreadCross(s: real, c: real, w0: real, w1: real, cross: real)
    requires cross == c + w1 - w0
    ensures s * cross == s * c + s * w1 - s * w0
  {
  }

  lemma ShiftedPlus(e: real, f: real, r: Sums, s: Sums)
    ensures ShiftedSums(e, f, r.Plus(s)) == ShiftedSums(e, f, r).Plus(ShiftedSums(e, f, s))
  {
    hide Lifted;
    var both := r.Plus(s);
    ShiftedMoment(e, both.cx, both.a2, r.cx, r.a2, s.cx, s.a2);
    ShiftedMoment(f, both.cy, both.a2, r.cy, r.a2, s.cy, s.a2);
  }

  lemma ShiftedMoment(k: real, m: real, u: real, m0: real, u0: real, m1: real, u1: real)
    requires m == m0 + m1 && u == u0 + u1
    ensures Lifted(m, k, u) == Lifted(m0, k, u0) + Lifted(m1, k, u1)
  {
    assert 3.0 * k * (u0 + u1) == 3.0 * k * u0 + 3.0 * k * u1;
  }

  /** Translating a chain: the potentials of the inner points telescope away. */
  lemma {:induction false} SumsShifted(e: real, f: real, pts: Chain)
    requires pts != []
    ensures SumsOf(Mapped(Shift(e, f), pts)) ==
            ShiftedSums(e, f, SumsOf(pts))
              .Plus(Potential(e, f, pts[|pts| - 1]).Plus(Potential(e, f, pts[0]).Negated()))
  {
    hide Edge, Affine.Apply, Potential, ShiftedSums, Sums.Plus, Sums.Negated;
    var t := Shift(e, f);
    var image := Mapped(t, pts);
    if |pts| == 1 {
      assert SumsOf(pts) == SumsOf(image) == ZERO;
      ShiftedZero(e, f);
      SelfCancel(ZERO, Potential(e, f, pts[0]));
    } else {
      var rest := pts[1..];
      SumsShifted(e, f, rest);
      assert image[1..] == Mapped(t, rest);
      assert SumsOf(image) == Edge(t.Apply(pts[0]), t.Apply(pts[1])).Plus(SumsOf(Mapped(t, rest)));
      ShiftEdge(e, f, pts[0], pts[1]);
      ShiftedPlus(e, f, Edge(pts[0], pts[1]), SumsOf(rest));
      Telescope(ShiftedSums(e, f, Edge(pts[0], pts[1])), ShiftedSums(e, f, SumsOf(rest)),
                Potential(e, f, pts[0]), Potential(e, f, pts[1]), Potential(e, f, pts[|pts| - 1]));
    }
  }

  lemma Telescope(r: Sums, s: Sums, u: Sums, v: Sums, w: Sums)
    ensures r.Plus(v.Plus(u.Negated())).Plus(s.Plus(w.Plus(v.Negated())))
         == r.Plus(s).Plus(w.Plus(u.Negated()))
  {
  }

  lemma SelfCancel(r: Sums, u: Sums)
    ensures r.Plus(u.Plus(u.Negated())) == r
  {
  }

  lemma ShiftedZero(e: real, f: real)
    ensures ShiftedSums(e, f, ZERO) == ZERO
  {
  }

  lemma SumsShiftedClosed(e: real, f: real, ring: Chain)
    requires Closed(ring)
    ensures SumsOf(Mapped(Shift(e, f), ring)) == ShiftedSums(e, f, SumsOf(ring))
  {
    hide SumsOf, Potential;
    SumsShifted(e, f, ring);
    SelfCancel(ShiftedSums(e, f, SumsOf(ring)), Potential(e, f, ring[0]));
  }

  lemma AppliedInTwo(t: Affine, p: Point)
    ensures t.Apply(p) == Shift(t.e, t.f).Apply(t.Linear().Apply(p))
  {
  }

  lemma MappedInTwo(t: Affine, pts: Chain)
    ensures Mapped(t, pts) == Mapped(Shift(t.e, t.f), Mapped(t.Linear(), pts))
  {
    hide Affine.Apply;
    forall i | 0 <= i < |pts|
      ensures Mapped(t, pts)[i] == Mapped(Shift(t.e, t.f), Mapped(t.Linear(), pts))[i]
    {
      AppliedInTwo(t, pts[i]);
    }
  }

  /** How an affine map moves the sums of a closed ring. */
  function AffineSums(t: Affine, s: Sums): Sums {
    ShiftedSums(t.e, t.f, LinearSums(t, s))
  }

  lemma SumsAffine(t: Affine, ring: Chain)
    requires Closed(ring)
    ensures Closed(Mapped(t, ring))
    ensures SumsOf(Mapped(t, ring)) == AffineSums(t, SumsOf(ring))
  {
    hide Affine.Apply, Affine.Det, SumsOf, Potential;
    var flat := Mapped(t.Linear(), ring);
    MappedInTwo(t, ring);
    SumsLinear(t.Linear(), ring);
    assert t.Linear().Det() == t.Det() by { DetOfLinear(t); }
    assert Closed(flat);
    SumsShiftedClosed(t.e, t.f, flat);
  }

  lemma DetOfLinear(t: Affine)
    ensures t.Linear().Det() == t.Det()
  {
  }
}
