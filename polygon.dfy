/**
 * The ray-casting (crossing-number) point-in-polygon test of script.py.
 *
 * A polygon is a ring of vertices: the edge from the last vertex back to the
 * first is implied. The test walks the ring once and flips a boolean on every
 * edge that a horizontal ray from the query point, towards growing x, crosses.
 * Coordinates are exact reals.
 */
module Polygon {

  /** A vertex or a query point. The sampler calls `x` the latitude and `y` the longitude. */
  datatype Point = Point(x: real, y: real)

  function Min(a: real, b: real): real { if a <= b then a else b }

  function Max(a: real, b: real): real { if a >= b then a else b }

  /** The vertex that step `i` of the loop reaches: `poly[i % n]`. */
  function Vertex(poly: seq<Point>, i: nat): (v: Point)
    requires |poly| > 0
    ensures v in poly
  {
    poly[i % |poly|]
  }

  /** The point held in `p1` when step `i` starts: `poly[0]` before the first step, then the vertex of the step before. */
  function Prior(poly: seq<Point>, i: nat): (v: Point)
    requires |poly| > 0
    ensures v in poly
  {
    if i == 0 then poly[0] else Vertex(poly, i - 1)
  }

  /**
   * Whether the step from `a` to `b` flips `inside` for the ray from (x, y):
   * y lies above the lower end and at or below the upper end, x is at or left
   * of the rightmost end, and the edge is vertical or x is at or left of the
   * point where the edge meets the ray. The intercept is evaluated only after
   * the first two tests, which a horizontal edge never passes, so its divisor
   * is never zero.
   */
  function Toggles(x: real, y: real, a: Point, b: Point): (t: bool)
    ensures t ==> a.y != b.y
  {
    && y > Min(a.y, b.y)
    && y <= Max(a.y, b.y)
    && x <= Max(a.x, b.x)
    && (a.x == b.x || x <= Intercept(y, a, b))
  }

  /**
   * The x at which the line through `a` and `b` reaches height `y`: the point
   * (r, y) is collinear with `a` and `b`, and at the height of an end it is that end.
   */
  function Intercept(y: real, a: Point, b: Point): (r: real)
    requires a.y != b.y
    ensures (r - a.x) * (b.y - a.y) == (y - a.y) * (b.x - a.x)
    ensures y == a.y ==> r == a.x
    ensures y == b.y ==> r == b.x
  {
    (y - a.y) * (b.x - a.x) / (b.y - a.y) + a.x
  }

  /** How many of the first `k` steps flip `inside`. */
  function Crossings(x: real, y: real, poly: seq<Point>, k: nat): nat
    requires |poly| > 0
  {
    if k == 0 then 0
    else Crossings(x, y, poly, k - 1) + (if Toggles(x, y, Prior(poly, k - 1), Vertex(poly, k - 1)) then 1 else 0)
  }

  /** The answer of the test: an odd number of the n + 1 steps flip `inside`. */
  function Contains(x: real, y: real, poly: seq<Point>): bool
    requires |poly| > 0
  {
    Crossings(x, y, poly, |poly| + 1) % 2 == 1
  }

  /**
   * point_inside_polygon. The polygon must be non-empty: the source reads
   * `poly[0]` and takes indices modulo its length.
   */
  method PointInsidePolygon(x: real, y: real, poly: seq<Point>) returns (inside: bool)
    requires |poly| > 0
    ensures inside == Contains(x, y, poly)
  {
    var n := |poly|;
    inside := false;
    var p1x, p1y := poly[0].x, poly[0].y;
    // `xints` is unbound in the source until its first assignment; `xintsStep`
    // records the step that last assigned it.
    var xints: real := 0.0;
    ghost var xintsStep: int := -1;
    for i := 0 to n + 1
      invariant Point(p1x, p1y) == Prior(poly, i)
      invariant inside == (Crossings(x, y, poly, i) % 2 == 1)
    {
      ghost var was := inside;
      ghost var flips := Toggles(x, y, Prior(poly, i), Vertex(poly, i));
      var p2x, p2y := poly[i % n].x, poly[i % n].y;
      assert Point(p2x, p2y) == Vertex(poly, i);
      if y > Min(p1y, p2y) {
        if y <= Max(p1y, p2y) {
          if x <= Max(p1x, p2x) {
            if p1y != p2y {
              xints := Intercept(y, Point(p1x, p1y), Point(p2x, p2y));
              xintsStep := i;
            }
            // the intercept read below is always the one of this very step
            assert xintsStep == i;
            if p1x == p2x || x <= xints {
              inside := !inside;
            }
          }
        }
      }
      assert inside == (was != flips);
      p1x, p1y := p2x, p2y;
    }
  }

  /** How many of the ring edges `poly[e] -> poly[(e + 1) % n]`, for e < j, the ray crosses. */
  function EdgeCrossings(x: real, y: real, poly: seq<Point>, j: nat): nat
    requires |poly| > 0
  {
    if j == 0 then 0
    else EdgeCrossings(x, y, poly, j - 1) + (if Toggles(x, y, Vertex(poly, j - 1), Vertex(poly, j)) then 1 else 0)
  }

  lemma {:induction false} StepsFollowRing(x: real, y: real, poly: seq<Point>, k: nat)
    requires |poly| > 0
    ensures Crossings(x, y, poly, k + 1) == EdgeCrossings(x, y, poly, k)
  {
    if k > 0 {
      assert Prior(poly, k) == Vertex(poly, k - 1);
      StepsFollowRing(x, y, poly, k - 1);
      var t := Toggles(x, y, Vertex(poly, k - 1), Vertex(poly, k));
      assert Crossings(x, y, poly, k + 1) == Crossings(x, y, poly, k) + (if t then 1 else 0);
      assert EdgeCrossings(x, y, poly, k) == EdgeCrossings(x, y, poly, k - 1) + (if t then 1 else 0);
    }
  }

  /**
   * The n + 1 steps are a degenerate step from `poly[0]` to itself, which
   * never toggles, followed by the n edges of the ring in order, the closing
   * edge last: the test counts exactly the ring edges the ray crosses.
   */
  lemma StepsAreRingEdges(x: real, y: real, poly: seq<Point>)
    requires |poly| > 0
    ensures Crossings(x, y, poly, |poly| + 1) == EdgeCrossings(x, y, poly, |poly|)
    ensures Contains(x, y, poly) <==> EdgeCrossings(x, y, poly, |poly|) % 2 == 1
  {
    StepsFollowRing(x, y, poly, |poly|);
  }

  lemma {:induction false} NoToggleNoCrossings(x: real, y: real, poly: seq<Point>, k: nat)
    requires |poly| > 0
    requires forall i :: 0 <= i < k ==> !Toggles(x, y, Prior(poly, i), Vertex(poly, i))
    ensures Crossings(x, y, poly, k) == 0
  {
    if k > 0 {
      NoToggleNoCrossings(x, y, poly, k - 1);
    }
  }

  /** A point at or below every vertex is outside: no step has its lower end strictly below the point. */
  lemma NotContainedBelow(x: real, y: real, poly: seq<Point>)
    requires |poly| > 0
    requires forall v :: v in poly ==> y <= v.y
    ensures !Contains(x, y, poly)
  {
    forall i | 0 <= i < |poly| + 1
      ensures !Toggles(x, y, Prior(poly, i), Vertex(poly, i))
    {
      var a, b := Prior(poly, i), Vertex(poly, i);
      assert y <= a.y && y <= b.y;
    }
    NoToggleNoCrossings(x, y, poly, |poly| + 1);
  }

  /** A point strictly above every vertex is outside: no step has its upper end at or above the point. */
  lemma NotContainedAbove(x: real, y: real, poly: seq<Point>)
    requires |poly| > 0
    requires forall v :: v in poly ==> y > v.y
    ensures !Contains(x, y, poly)
  {
    forall i | 0 <= i < |poly| + 1
      ensures !Toggles(x, y, Prior(poly, i), Vertex(poly, i))
    {
      var a, b := Prior(poly, i), Vertex(poly, i);
      assert y > a.y && y > b.y;
    }
    NoToggleNoCrossings(x, y, poly, |poly| + 1);
  }

  /** A point strictly right of every vertex is outside: the ray starts beyond every edge. */
  lemma NotContainedRight(x: real, y: real, poly: seq<Point>)
    requires |poly| > 0
    requires forall v :: v in poly ==> x > v.x
    ensures !Contains(x, y, poly)
  {
    forall i | 0 <= i < |poly| + 1
      ensures !Toggles(x, y, Prior(poly, i), Vertex(poly, i))
    {
      var a, b := Prior(poly, i), Vertex(poly, i);
      assert x > a.x && x > b.x;
    }
    NoToggleNoCrossings(x, y, poly, |poly| + 1);
  }

  /** Whether `v` lies strictly below the horizontal line through height `y`. */
  predicate Below(y: real, v: Point) { v.y < y }

  /** Where an edge that spans height `y` meets that height lies between the edge's two ends. */
  lemma InterceptOnEdge(y: real, a: Point, b: Point)
    requires Min(a.y, b.y) < y <= Max(a.y, b.y)
    ensures a.y != b.y
    ensures Min(a.x, b.x) <= Intercept(y, a, b) <= Max(a.x, b.x)
  {
    var p, d := y - a.y, b.y - a.y;
    if a.y < b.y {
      UnitRatio(p, d);
    } else {
      UnitRatio(-p, -d);
      assert (-p) / (-d) == p / d;
    }
    var t := p / d;
    assert Intercept(y, a, b) == a.x + t * (b.x - a.x);
    Between(a.x, b.x, t);
  }

  /** The ratio of a part `p` of a positive whole `d` lies in [0, 1]. */
  lemma UnitRatio(p: real, d: real)
    requires 0.0 < d && 0.0 <= p <= d
    ensures 0.0 <= p / d <= 1.0
  {
    var r := p / d;
    assert r * d == p;
    assert (1.0 - r) * d == d - p;
  }

  /** A point a fraction `t` in [0, 1] of the way from `p` to `q` lies between them. */
  lemma Between(p: real, q: real, t: real)
    requires 0.0 <= t <= 1.0
    ensures Min(p, q) <= p + t * (q - p) <= Max(p, q)
  {
    var w := if q >= p then q - p else p - q;
    var s := 1.0 - t;
    assert 0.0 <= s;
    assert 0.0 <= t * w;
    assert 0.0 <= s * w;
    assert w - t * w == s * w;
    assert 0.0 <= t * w <= w;
    if q < p {
      assert p + t * (q - p) == p - t * w;
    }
  }

  /** Left of both ends of a step, the step toggles exactly when its ends lie on opposite sides of height `y`. */
  lemma LeftToggleIsSideChange(x: real, y: real, a: Point, b: Point)
    requires x < a.x && x < b.x
    ensures Toggles(x, y, a, b) == (Below(y, a) != Below(y, b))
  {
    if Min(a.y, b.y) < y <= Max(a.y, b.y) {
      InterceptOnEdge(y, a, b);
    }
  }

  lemma {:induction false} LeftParity(x: real, y: real, poly: seq<Point>, k: nat)
    requires |poly| > 0
    requires forall v :: v in poly ==> x < v.x
    ensures (Crossings(x, y, poly, k) % 2 == 1) == (Below(y, poly[0]) != Below(y, Prior(poly, k)))
  {
    if k > 0 {
      var a, b := Prior(poly, k - 1), Vertex(poly, k - 1);
      assert Prior(poly, k) == b;
      LeftParity(x, y, poly, k - 1);
      LeftToggleIsSideChange(x, y, a, b);
      var c, t := Crossings(x, y, poly, k - 1), Toggles(x, y, a, b);
      assert Crossings(x, y, poly, k) == c + (if t then 1 else 0);
      FlipParity(c, t);
    }
  }

  /** Adding one to a count flips its parity; adding zero keeps it. */
  lemma FlipParity(c: nat, t: bool)
    ensures ((c + (if t then 1 else 0)) % 2 == 1) == ((c % 2 == 1) != t)
  {
  }

  /**
   * A point strictly left of every vertex is outside: every edge the ray
   * meets is crossed, and a closed ring crosses any height an even number of
   * times.
   */
  lemma NotContainedLeft(x: real, y: real, poly: seq<Point>)
    requires |poly| > 0
    requires forall v :: v in poly ==> x < v.x
    ensures !Contains(x, y, poly)
  {
    LeftParity(x, y, poly, |poly| + 1);
    assert Prior(poly, |poly| + 1) == poly[0];
  }

  /** The unit example of a ten-by-ten square: its centre is inside, a point beyond its corner is not. */
  lemma SquareExample()
    ensures Contains(5.0, 5.0, [Point(0.0, 0.0), Point(0.0, 10.0), Point(10.0, 10.0), Point(10.0, 0.0)])
    ensures !Contains(15.0, 15.0, [Point(0.0, 0.0), Point(0.0, 10.0), Point(10.0, 10.0), Point(10.0, 0.0)])
  {
    var sq := [Point(0.0, 0.0), Point(0.0, 10.0), Point(10.0, 10.0), Point(10.0, 0.0)];
    assert Crossings(5.0, 5.0, sq, 5) == 1;
    NotContainedAbove(15.0, 15.0, sq);
  }
}
