/** What "inside a box" means (src/core/geometry/misc.rs), the mixed
    Point3f − Vector2f operator, the bounding sphere of a box (whose radius
    test needs containment), and the box properties stated through
    containment. */
module Misc {
  import opened Pbrt
  import opened Vector
  import opened Point
  import opened Bounds

  /** `Point3f - Vector2f`: subtracts the vector from x and y and drops z. */
  function Point3fSubVector2f(a: Point3f, b: Vector2f): (r: Point2f)
    ensures r.AddVector(b) == Point2fFromPoint3f(a)
  {
    Point2f(a.x - b.x, a.y - b.y)
  }

  /** The result depends on `z` not at all, and subtracting the zero vector
      is the plain projection to the xy-plane. */
  lemma Point3fSubVector2fDropsZ(a: Point3f, b: Vector2f, z: Float)
    ensures Point3fSubVector2f(a.(z := z), b) == Point3fSubVector2f(a, b)
    ensures Point3fSubVector2f(a, Vector2f(0.0, 0.0)) == Point2fFromPoint3f(a)
  {
  }

  /** Point3f + Vector3f is componentwise. */
  lemma Point3fAddVector3fComponentwise(a: Point3f, b: Vector3f)
    ensures a.AddVector(b).x == a.x + b.x && a.AddVector(b).y == a.y + b.y && a.AddVector(b).z == a.z + b.z
    ensures a.AddVector(b).Sub(a) == b
  {
  }

  /** Inclusive containment in a 2D box. */
  predicate InsideBounds2f(p: Point2f, b: Bounds2f)
  {
    p.x >= b.pMin.x && p.x <= b.pMax.x && p.y >= b.pMin.y && p.y <= b.pMax.y
  }

  /** Inclusive containment in a 3D box: both faces of every axis count. */
  predicate InsideBounds3f(p: Point3f, b: Bounds3f)
  {
    p.x >= b.pMin.x
    && p.x <= b.pMax.x
    && p.y >= b.pMin.y
    && p.y <= b.pMax.y
    && p.z >= b.pMin.z
    && p.z <= b.pMax.z
  }

  /** Half-open containment: the minimum faces count, the maximum faces do not. */
  predicate InsideExclusiveBounds3f(p: Point3f, b: Bounds3f)
  {
    p.x >= b.pMin.x
    && p.x < b.pMax.x
    && p.y >= b.pMin.y
    && p.y < b.pMax.y
    && p.z >= b.pMin.z
    && p.z < b.pMax.z
  }

  /** Exclusive containment implies inclusive containment, and no box holds
      its own maximum corner exclusively. */
  lemma ExclusiveContainment(p: Point3f, b: Bounds3f)
    ensures InsideExclusiveBounds3f(p, b) ==> InsideBounds3f(p, b)
    ensures !InsideExclusiveBounds3f(b.pMax, b)
  {
  }

  /** A box has a point inside exactly when it is well-formed; its corners
      are such points. So nothing is inside the `Default` sentinel. */
  lemma NonEmptyIffWellFormed(b: Bounds3f, p: Point3f, q: Point2f, c: Usize)
    ensures InsideBounds3f(p, b) ==> b.WellFormed()
    ensures b.WellFormed() ==> InsideBounds3f(b.pMin, b) && InsideBounds3f(b.pMax, b)
    ensures b.WellFormed() ==> InsideBounds3f(b.Corner(c), b)
    ensures !InsideBounds3f(p, Bounds3f.Default())
    ensures !InsideBounds2f(q, Bounds2f.Default())
  {
  }

  /** The box `From(p)` holds `p` and no other point. */
  lemma FromContainsExactly(p: Point3f, q: Point3f, p2: Point2f, q2: Point2f)
    ensures InsideBounds3f(q, Bounds3f.From(p)) <==> q == p
    ensures InsideBounds2f(q2, Bounds2f.From(p2)) <==> q2 == p2
  {
  }

  /** A box built from two points holds both of them. */
  lemma NewWithPointsContains(p1: Point3f, p2: Point3f, q1: Point2f, q2: Point2f)
    ensures InsideBounds3f(p1, Bounds3f.NewWithPoints(p1, p2)) && InsideBounds3f(p2, Bounds3f.NewWithPoints(p1, p2))
    ensures InsideBounds2f(q1, Bounds2f.NewWithPoints(q1, q2)) && InsideBounds2f(q2, Bounds2f.NewWithPoints(q1, q2))
  {
  }

  /** Adding a point to a box gives a box that holds the point and
      everything the box held. */
  lemma UnionPoint3fContains(b: Bounds3f, p: Point3f, q: Point3f)
    ensures InsideBounds3f(p, b.UnionPoint3f(p))
    ensures InsideBounds3f(q, b) ==> InsideBounds3f(q, b.UnionPoint3f(p))
  {
  }

  /** The union of two boxes holds everything either of them holds. */
  lemma UnionContains(a: Bounds3f, b: Bounds3f, q: Point3f)
    ensures InsideBounds3f(q, a) || InsideBounds3f(q, b) ==> InsideBounds3f(q, a.Union(b))
  {
  }

  /** A point is inside the intersection exactly when it is inside both boxes. */
  lemma IntersectContains(a: Bounds3f, b: Bounds3f, q: Point3f)
    ensures InsideBounds3f(q, a.Intersect(b)) <==> InsideBounds3f(q, a) && InsideBounds3f(q, b)
  {
  }

  /** Two well-formed boxes overlap exactly when some point is inside both. */
  lemma OverlapsIffCommonPoint(a: Bounds3f, b: Bounds3f)
    requires a.WellFormed() && b.WellFormed()
    ensures a.Overlaps(b) <==> exists q :: InsideBounds3f(q, a) && InsideBounds3f(q, b)
  {
    if a.Overlaps(b) {
      OverlapsIffIntersectWellFormed(a, b);
      var q := a.Intersect(b).pMin;
      IntersectContains(a, b, q);
      assert InsideBounds3f(q, a) && InsideBounds3f(q, b);
    }
  }

  /** Expanding by a non-negative amount keeps everything that was inside. */
  lemma ExpandContains(b: Bounds3f, d: Float, q: Point3f)
    requires d >= 0.0
    ensures InsideBounds3f(q, b) ==> InsideBounds3f(q, b.Expand(d))
  {
  }

  /** A parameter point in the unit cube interpolates to a point inside a
      well-formed box; in particular `lerp((0,0,0))` is the minimum corner
      and `lerp((1,1,1))` the maximum. */
  lemma {:induction false} LerpInside(b: Bounds3f, t: Point3f)
    requires b.WellFormed()
    requires 0.0 <= t.x <= 1.0 && 0.0 <= t.y <= 1.0 && 0.0 <= t.z <= 1.0
    ensures InsideBounds3f(b.Lerp(t), b)
    ensures b.Lerp(Point3f(0.0, 0.0, 0.0)) == b.pMin && b.Lerp(Point3f(1.0, 1.0, 1.0)) == b.pMax
  {
    LerpBetween(t.x, b.pMin.x, b.pMax.x);
    LerpBetween(t.y, b.pMin.y, b.pMax.y);
    LerpBetween(t.z, b.pMin.z, b.pMax.z);
  }

  /** The 2D counterpart of `LerpInside`. */
  lemma {:induction false} Lerp2fInside(b: Bounds2f, t: Point2f)
    requires b.WellFormed()
    requires 0.0 <= t.x <= 1.0 && 0.0 <= t.y <= 1.0
    ensures InsideBounds2f(b.Lerp(t), b)
    ensures b.Lerp(Point2f(0.0, 0.0)) == b.pMin && b.Lerp(Point2f(1.0, 1.0)) == b.pMax
  {
    LerpBetween(t.x, b.pMin.x, b.pMax.x);
    LerpBetween(t.y, b.pMin.y, b.pMax.y);
  }

  /** A point inside a box has its offset in the unit cube: a fraction of
      the extent on axes of positive extent, and 0 on flat axes, where being
      inside forces the point onto the minimum. */
  lemma {:induction false} OffsetInUnitCube(b: Bounds3f, p: Point3f, o: Vector3f)
    requires InsideBounds3f(p, b) && b.IsOffset(p, o)
    ensures 0.0 <= o.x <= 1.0 && 0.0 <= o.y <= 1.0 && 0.0 <= o.z <= 1.0
  {
    AxisOffsetInUnit(p.x, b.pMin.x, b.pMax.x, o.x);
    AxisOffsetInUnit(p.y, b.pMin.y, b.pMax.y, o.y);
    AxisOffsetInUnit(p.z, b.pMin.z, b.pMax.z, o.z);
  }

  /** On one axis, a value between the ends has its offset in [0, 1]. */
  lemma AxisOffsetInUnit(v: Float, lo: Float, hi: Float, o: Float)
    requires lo <= v <= hi && AxisOffset(v, lo, hi, o)
    ensures 0.0 <= o <= 1.0
  {
    if lo < hi {
      FractionInUnit(v, lo, hi, o);
    }
  }

  /** A value between the ends of a positive extent sits at a fraction in [0, 1]. */
  lemma FractionInUnit(v: Float, lo: Float, hi: Float, o: Float)
    requires lo < hi && lo <= v <= hi && lo + o * (hi - lo) == v
    ensures 0.0 <= o <= 1.0
  {
    var e := hi - lo;
    assert o == (v - lo) / e;
    assert (v - lo) / e <= e / e;
  }

  /** `bounding_sphere` of a 2D box: the midpoint of the box and, when that
      midpoint is inside the box, the squared distance to the maximum
      corner; otherwise radius 0. The radius itself is the square root of
      `r.1`. */
  function BoundingSphere2f(b: Bounds2f): (r: (Point2f, Float))
    ensures r.0.Sub(b.pMin) == b.pMax.Sub(r.0)
    ensures r.1 >= 0.0
    ensures InsideBounds2f(r.0, b) <==> b.WellFormed()
    ensures !b.WellFormed() ==> r.1 == 0.0
  {
    var center := b.pMin.Add(b.pMax).Scale(0.5);
    var d := b.pMax.Sub(center);
    var radius2 := if InsideBounds2f(center, b) then d.LengthSquared() else 0.0;
    (center, radius2)
  }

  /** `bounding_sphere` of a 3D box: the midpoint of the box and, when that
      midpoint is inside the box, the squared distance to the maximum
      corner; otherwise radius 0. The radius itself is the square root of
      `r.1`. */
  function BoundingSphere3f(b: Bounds3f): (r: (Point3f, Float))
    ensures r.0.Sub(b.pMin) == b.pMax.Sub(r.0)
    ensures r.1 >= 0.0
    ensures InsideBounds3f(r.0, b) <==> b.WellFormed()
    ensures InsideBounds3f(r.0, b) ==> r.1 == r.0.DistanceSquared(b.pMax)
    ensures !b.WellFormed() ==> r.1 == 0.0
  {
    var center := b.pMin.Add(b.pMax).Scale(0.5);
    var radius2 := if InsideBounds3f(center, b) then center.DistanceSquared(b.pMax) else 0.0;
    (center, radius2)
  }

  /** Every corner of a well-formed box lies within the bounding sphere:
      no corner is farther from the center than the maximum corner is. */
  lemma {:induction false} BoundingSphereHoldsCorner(b: Bounds3f, c: Usize)
    requires b.WellFormed()
    ensures BoundingSphere3f(b).0.DistanceSquared(b.Corner(c)) == BoundingSphere3f(b).1
  {
    var center := BoundingSphere3f(b).0;
    var k := b.Corner(c);
    assert k.x == b.Index(c % 2).x && k.y == b.Index((c / 2) % 2).y && k.z == b.Index((c / 4) % 2).z;
    HalfSpanSquare(b.pMin.x, b.pMax.x, k.x);
    HalfSpanSquare(b.pMin.y, b.pMax.y, k.y);
    HalfSpanSquare(b.pMin.z, b.pMax.z, k.z);
    assert center.x == (b.pMin.x + b.pMax.x) * 0.5;
    assert center.y == (b.pMin.y + b.pMax.y) * 0.5;
    assert center.z == (b.pMin.z + b.pMax.z) * 0.5;
  }

  /** The midpoint of `lo` and `hi` is as far from either end, in square. */
  lemma HalfSpanSquare(lo: Float, hi: Float, k: Float)
    requires k == lo || k == hi
    ensures (k - (lo + hi) * 0.5) * (k - (lo + hi) * 0.5) == (hi - (lo + hi) * 0.5) * (hi - (lo + hi) * 0.5)
  {
    var h := (hi - lo) * 0.5;
    if k == lo {
      assert k - (lo + hi) * 0.5 == -h;
      assert hi - (lo + hi) * 0.5 == h;
      NegatedSquare(h);
    } else {
      assert k - (lo + hi) * 0.5 == h;
    }
  }
}
