/**
 * Ground-plane geometry of the configurator: points, axis-aligned bounding boxes with the
 * three.js overlap test, and the shoelace area that prices a drawn rubber floor.
 */
module Geometry {
  import opened JsNumber

  /** A point in world space; the ground is the plane y = 0 and floors are drawn in x/z. */
  datatype Point = Point(x: real, y: real, z: real)

  /** A three.js `Box3`: its two corners. Nothing forces `min <= max`; a shrunk box may be inverted. */
  datatype Box = Box(min: Point, max: Point)

  /** Both corners are ordered on every axis, so the box holds at least one point. */
  predicate Proper(b: Box) {
    b.min.x <= b.max.x && b.min.y <= b.max.y && b.min.z <= b.max.z
  }

  predicate Contains(b: Box, p: Point) {
    b.min.x <= p.x <= b.max.x && b.min.y <= p.y <= b.max.y && b.min.z <= p.z <= b.max.z
  }

  /**
   * `Box3.expandByScalar(-d)`: every face moves inwards by `d`. What the overlap test sees of two
   * shrunk boxes is pinned down by `ShrunkIntersectsIffDeepOverlap` below.
   */
  function Shrink(b: Box, d: real): (r: Box)
    ensures forall p :: Contains(r, p) ==> d < 0.0 || Contains(b, p)
  {
    Box(Point(b.min.x + d, b.min.y + d, b.min.z + d), Point(b.max.x - d, b.max.y - d, b.max.z - d))
  }

  /** `Box3.intersectsBox`: no axis separates the two boxes (touching faces count as overlap). */
  predicate Intersects(a: Box, b: Box) {
    !(b.max.x < a.min.x || b.min.x > a.max.x
      || b.max.y < a.min.y || b.min.y > a.max.y
      || b.max.z < a.min.z || b.min.z > a.max.z)
  }

  /** The overlap test does not depend on which box asks. */
  lemma IntersectsSymmetric(a: Box, b: Box)
    ensures Intersects(a, b) <==> Intersects(b, a)
  {
  }

  /**
   * For proper boxes the three.js test means what it says: the boxes share a point. Improper
   * boxes are where the test and the geometry part ways (see `InvertedBoxIntersects`).
   */
  lemma IntersectsIffCommonPoint(a: Box, b: Box)
    requires Proper(a) && Proper(b)
    ensures Intersects(a, b) <==> exists p :: Contains(a, p) && Contains(b, p)
  {
    if Intersects(a, b) {
      var p := Point(Max(a.min.x, b.min.x), Max(a.min.y, b.min.y), Max(a.min.z, b.min.z));
      assert Contains(a, p) && Contains(b, p);
    }
  }

  function Max(u: real, v: real): real {
    if u >= v then u else v
  }

  /**
   * Two boxes shrunk by `d` overlap exactly when the original boxes overlap by at least `2d` on
   * every axis; with the margin 0.1 used for collisions, objects that merely touch, or overlap
   * by less than 0.2, do not collide.
   */
  lemma ShrunkIntersectsIffDeepOverlap(a: Box, b: Box, d: real)
    ensures Intersects(Shrink(a, d), Shrink(b, d)) <==>
      (b.max.x - a.min.x >= 2.0 * d && a.max.x - b.min.x >= 2.0 * d
      && b.max.y - a.min.y >= 2.0 * d && a.max.y - b.min.y >= 2.0 * d
      && b.max.z - a.min.z >= 2.0 * d && a.max.z - b.min.z >= 2.0 * d)
  {
  }

  /** Shrinking both boxes by a non-negative margin can only remove collisions. */
  lemma ShrunkIntersectsImplies(a: Box, b: Box, d: real)
    requires d >= 0.0
    requires Intersects(Shrink(a, d), Shrink(b, d))
    ensures Intersects(a, b)
  {
    ShrunkIntersectsIffDeepOverlap(a, b, d);
  }

  /**
   * The three.js test lets an inverted box, which contains no point at all, hit a proper box
   * that spans it.
   */
  lemma InvertedBoxIntersects()
    ensures var a := Box(Point(0.6, 0.6, 0.6), Point(0.4, 0.4, 0.4));
      var b := Box(Point(0.0, 0.0, 0.0), Point(1.0, 1.0, 1.0));
      Intersects(a, b) && !exists p :: Contains(a, p)
  {
  }

  /** The x/z cross product of two ground points: one term of the shoelace sum. */
  function Cross(p: Point, q: Point): real {
    p.x * q.z - q.x * p.z
  }

  /** The cross products of consecutive points along an open chain. */
  function Chain(pts: seq<Point>): real {
    if |pts| < 2 then 0.0 else Cross(pts[0], pts[1]) + Chain(pts[1..])
  }

  /** Twice the signed area of the closed polygon through `pts`: the chain plus the closing edge. */
  function Closed(pts: seq<Point>): real {
    if |pts| == 0 then 0.0 else Chain(pts) + Cross(pts[|pts| - 1], pts[0])
  }

  /** The polygon's area in square metres: half the absolute shoelace sum. */
  function Area(pts: seq<Point>): (a: real)
    ensures a >= 0.0
  {
    var s := Closed(pts);
    if s < 0.0 then -s / 2.0 else s / 2.0
  }

  /** Price per square metre of a drawn rubber floor. */
  const PricePerM2: real := 40.0

  /** An area priced at `rate` per square metre, rounded to whole euros with `Math.round`. */
  function AreaPrice(area: real, rate: real): (p: real)
    ensures -0.5 < p - area * rate <= 0.5
    ensures p == p.Floor as real
  {
    Round(area * rate) as real
  }

  /** A drawn rubber floor costs its area at the fixed rate, rounded to whole euros. */
  function FloorPrice(area: real): (p: real)
    ensures area >= 0.0 ==> p >= 0.0
    ensures -0.5 < p - area * PricePerM2 <= 0.5
    ensures p == p.Floor as real
  {
    AreaPrice(area, PricePerM2)
  }

  lemma {:induction false} ChainSnoc(pts: seq<Point>, q: Point)
    requires |pts| >= 1
    ensures Chain(pts + [q]) == Chain(pts) + Cross(pts[|pts| - 1], q)
    decreases |pts|
  {
    if |pts| == 1 {
      assert pts + [q] == [pts[0], q];
    } else {
      assert (pts + [q])[1..] == pts[1..] + [q];
      ChainSnoc(pts[1..], q);
    }
  }

  /** One more vertex of the outline adds one edge to the open chain. */
  lemma ChainStep(pts: seq<Point>, i: nat)
    requires i + 1 < |pts|
    ensures Chain(pts[..i + 2]) == Chain(pts[..i + 1]) + Cross(pts[i], pts[i + 1])
  {
    assert pts[..i + 2] == pts[..i + 1] + [pts[i + 1]];
    ChainSnoc(pts[..i + 1], pts[i + 1]);
  }

  /** The loop's `(i + 1) % n`: the next vertex, wrapping round to the first. */
  function Next(i: nat, n: nat): (j: nat)
    requires i < n
    ensures j == if i + 1 < n then i + 1 else 0
  {
    (i + 1) % n
  }

  /**
   * The floor loop as written: for every vertex `i` it adds `x_i z_j - x_j z_i` with
   * `j = (i + 1) % n`, then halves the magnitude. Its result is the polygon's area.
   */
  method ShoelaceArea(pts: seq<Point>) returns (a: real)
    requires |pts| >= 1
    ensures a == Area(pts)
  {
    var n := |pts|;
    var sum := 0.0;
    var i := 0;
    while i < n
      invariant 0 <= i <= n
      invariant i < n ==> sum == Chain(pts[..i + 1])
      invariant i == n ==> sum == Closed(pts)
    {
      var j := Next(i, n);
      ghost var before := sum;
      sum := sum + pts[i].x * pts[j].z;
      sum := sum - pts[j].x * pts[i].z;
      assert sum == before + Cross(pts[i], pts[j]);
      if i + 1 < n {
        ChainStep(pts, i);
      } else {
        assert pts[..i + 1] == pts;
      }
      i := i + 1;
    }
    a := if sum < 0.0 then -sum / 2.0 else sum / 2.0;
  }

  /** Starting the outline at its second vertex describes the same polygon. */
  lemma AreaRotate(pts: seq<Point>)
    requires |pts| >= 2
    ensures Area(pts[1..] + [pts[0]]) == Area(pts)
  {
    var r := pts[1..] + [pts[0]];
    ChainSnoc(pts[1..], pts[0]);
    assert r[|r| - 1] == pts[0] && r[0] == pts[1];
    assert Closed(r) == Closed(pts);
  }

  function Reverse(pts: seq<Point>): (r: seq<Point>)
    ensures |r| == |pts|
    ensures forall i :: 0 <= i < |pts| ==> r[i] == pts[|pts| - 1 - i]
  {
    if |pts| == 0 then [] else Reverse(pts[1..]) + [pts[0]]
  }

  lemma {:induction false} ChainReverse(pts: seq<Point>)
    ensures Chain(Reverse(pts)) == -Chain(pts)
    decreases |pts|
  {
    if |pts| >= 2 {
      var t := Reverse(pts[1..]);
      ChainReverse(pts[1..]);
      ChainSnoc(t, pts[0]);
      assert Reverse(pts) == t + [pts[0]];
      assert t[|t| - 1] == pts[1];
    } else if |pts| == 1 {
      assert Reverse(pts) == pts;
    }
  }

  /** Walking the outline the other way round flips the sign of the sum but not the area. */
  lemma AreaReverse(pts: seq<Point>)
    ensures Closed(Reverse(pts)) == -Closed(pts)
    ensures Area(Reverse(pts)) == Area(pts)
  {
    ChainReverse(pts);
  }

  /** The shoelace sum of a quadrilateral, edge by edge. */
  lemma ClosedOfFour(p0: Point, p1: Point, p2: Point, p3: Point)
    ensures Closed([p0, p1, p2, p3]) == Cross(p0, p1) + Cross(p1, p2) + Cross(p2, p3) + Cross(p3, p0)
  {
    assert [p0, p1, p2, p3][1..] == [p1, p2, p3];
    assert [p1, p2, p3][1..] == [p2, p3];
    assert [p2, p3][1..] == [p3];
    assert Chain([p2, p3]) == Cross(p2, p3);
    assert Chain([p1, p2, p3]) == Cross(p1, p2) + Cross(p2, p3);
    assert Chain([p0, p1, p2, p3]) == Cross(p0, p1) + Cross(p1, p2) + Cross(p2, p3);
  }

  /** A 4 m by 3 m rectangle covers 12 m² and costs 480. */
  lemma RectangleFloor()
    ensures var pts := [Point(0.0, 0.0, 0.0), Point(4.0, 0.0, 0.0), Point(4.0, 0.0, 3.0), Point(0.0, 0.0, 3.0)];
      Area(pts) == 12.0 && FloorPrice(Area(pts)) == 480.0
  {
    var p0, p1, p2, p3 := Point(0.0, 0.0, 0.0), Point(4.0, 0.0, 0.0), Point(4.0, 0.0, 3.0), Point(0.0, 0.0, 3.0);
    ClosedOfFour(p0, p1, p2, p3);
    assert Cross(p0, p1) == 0.0 && Cross(p1, p2) == 12.0 && Cross(p2, p3) == 12.0 && Cross(p3, p0) == 0.0;
    assert 12.0 * PricePerM2 == 480 as real;
    RoundOfInt(480);
  }
}
