/** Axis-aligned bounding boxes (src/core/geometry/bounds.rs). A box is the
    pair of its minimum and maximum corners; nothing forces `pMin <= pMax`
    (the `Default` box is deliberately inverted), so properties that need it
    say `WellFormed()`. `offset` is a method because the renderer builds its
    result by updating a local step by step; `IndexMut` is `SetIndex` on the
    classes `Bounds2fVar` and `Bounds3fVar`. What "inside" means, and every
    property stated through it, is in module Misc. */
module Bounds {
  import opened Pbrt
  import opened Vector
  import opened Point

  /** One axis of `offset`: where `v` lies between `lo` and `hi`, as a
      fraction of the extent `hi - lo` when that extent is positive, and as
      the raw difference `v - lo` (no division) otherwise. */
  predicate AxisOffset(v: Float, lo: Float, hi: Float, o: Float)
  {
    if hi > lo then lo + o * (hi - lo) == v else o == v - lo
  }

  /** The fraction is determined by the point: at most one `o` satisfies
      `AxisOffset` for given `v`, `lo` and `hi`. */
  lemma {:induction false} AxisOffsetUnique(v: Float, lo: Float, hi: Float, o1: Float, o2: Float)
    requires AxisOffset(v, lo, hi, o1) && AxisOffset(v, lo, hi, o2)
    ensures o1 == o2
  {
    if hi > lo {
      var e := hi - lo;
      assert o1 * e == o2 * e;
      assert (o1 - o2) * e == 0.0;
    }
  }

  /** On an axis of positive extent, the offset of the interpolant at `t` is
      `t`; the offset of `lo` is 0 and that of `hi` is 1. */
  lemma AxisOffsetOfLerp(t: Float, lo: Float, hi: Float)
    requires hi > lo
    ensures AxisOffset(Pbrt.Lerp(t, lo, hi), lo, hi, t)
    ensures AxisOffset(lo, lo, hi, 0.0)
    ensures AxisOffset(hi, lo, hi, 1.0)
  {
    LerpAffine(t, lo, hi);
  }

  /** The quotient a single `/=` step stores is the fraction `AxisOffset` asks for. */
  lemma AxisQuotient(v: Float, lo: Float, hi: Float)
    requires hi > lo
    ensures AxisOffset(v, lo, hi, (v - lo) / (hi - lo))
  {
  }

  datatype Bounds2f = Bounds2f(pMin: Point2f, pMax: Point2f)
  {
    /** `b[i]`: 0 is `pMin`, 1 is `pMax`; any other index panics. */
    function Index(i: Usize): Point2f
      requires i <= 1
    {
      if i == 0 then pMin else pMax
    }

    /** Minimum corner below the maximum corner on both axes. */
    predicate WellFormed()
    {
      pMin.x <= pMax.x && pMin.y <= pMax.y
    }

    /** The smallest box with both points as corners, whichever order they come in. */
    static function NewWithPoints(p1: Point2f, p2: Point2f): (r: Bounds2f)
      ensures r.WellFormed()
      ensures r.pMin.x <= p1.x <= r.pMax.x && r.pMin.y <= p1.y <= r.pMax.y
      ensures r.pMin.x <= p2.x <= r.pMax.x && r.pMin.y <= p2.y <= r.pMax.y
      ensures (r.pMin.x == p1.x || r.pMin.x == p2.x) && (r.pMax.x == p1.x || r.pMax.x == p2.x)
      ensures (r.pMin.y == p1.y || r.pMin.y == p2.y) && (r.pMax.y == p1.y || r.pMax.y == p2.y)
    {
      Bounds2f(Point2f(Pbrt.Min(p1.x, p2.x), Pbrt.Min(p1.y, p2.y)),
               Point2f(Pbrt.Max(p1.x, p2.x), Pbrt.Max(p1.y, p2.y)))
    }

    /** The empty-box sentinel: minimum at `Float::MAX`, maximum at `Float::MIN`. */
    static function Default(): Bounds2f
    {
      Bounds2f(Point2f(FLOAT_MAX, FLOAT_MAX), Point2f(FLOAT_MIN, FLOAT_MIN))
    }

    /** `Bounds2f::from(p)`: the degenerate box whose corners are both `p`. */
    static function From(p: Point2f): Bounds2f
    {
      Bounds2f(p, p)
    }

    /** The vector from the minimum to the maximum corner. */
    function Diagonal(): (r: Vector2f)
      ensures pMin.AddVector(r) == pMax
    {
      pMax.Sub(pMin)
    }

    /** The product of the extents, never negative for a well-formed box. */
    function Area(): (r: Float)
      ensures WellFormed() ==> r >= 0.0
    {
      var d := pMax.Sub(pMin);
      d.x * d.y
    }

    /** The axis of the longer extent; when the extents are equal, axis 1. */
    function MaximumExtend(): (r: Usize)
      ensures r <= 1
      ensures Diagonal().Index(r) >= Diagonal().Index(1 - r)
      ensures r == 0 ==> Diagonal().Index(0) > Diagonal().Index(1)
    {
      var d := Diagonal();
      if d.x > d.y then 0 else 1
    }

    /** Interpolation inside the box: each coordinate of `t` is the fraction
        of the way from the minimum to the maximum on its axis. */
    function Lerp(t: Point2f): (r: Point2f)
      ensures r.x - pMin.x == t.x * (pMax.x - pMin.x)
      ensures r.y - pMin.y == t.y * (pMax.y - pMin.y)
    {
      LerpAffine(t.x, pMin.x, pMax.x);
      LerpAffine(t.y, pMin.y, pMax.y);
      Point2f(Pbrt.Lerp(t.x, pMin.x, pMax.x), Pbrt.Lerp(t.y, pMin.y, pMax.y))
    }

    /** `o` is where `p` lies in the box, axis by axis, as `AxisOffset` says. */
    predicate IsOffset(p: Point2f, o: Vector2f)
    {
      AxisOffset(p.x, pMin.x, pMax.x, o.x) && AxisOffset(p.y, pMin.y, pMax.y, o.y)
    }

    /** `offset(p)`: starts from `p - pMin` and divides each component by the
        extent of its axis when that extent is positive. */
    method Offset(p: Point2f) returns (o: Vector2f)
      ensures IsOffset(p, o)
    {
      o := p.Sub(pMin);
      if pMax.x > pMin.x {
        o := o.(x := o.x / (pMax.x - pMin.x));
        AxisQuotient(p.x, pMin.x, pMax.x);
      }
      if pMax.y > pMin.y {
        o := o.(y := o.y / (pMax.y - pMin.y));
        AxisQuotient(p.y, pMin.y, pMax.y);
      }
    }
  }

  /** Building a box from two points does not depend on their order. */
  lemma NewWithPoints2fSymmetric(p1: Point2f, p2: Point2f)
    ensures Bounds2f.NewWithPoints(p1, p2) == Bounds2f.NewWithPoints(p2, p1)
  {
  }

  /** On an axis of positive extent the offset of `lerp(t)` is `t`, the
      offset of the minimum corner is 0 and that of the maximum corner is 1;
      on any other axis it is the raw difference from the minimum. */
  lemma {:induction false} Offset2fOfLerp(b: Bounds2f, t: Point2f, o: Vector2f, oMin: Vector2f, oMax: Vector2f)
    requires b.IsOffset(b.Lerp(t), o) && b.IsOffset(b.pMin, oMin) && b.IsOffset(b.pMax, oMax)
    ensures b.pMax.x > b.pMin.x ==> o.x == t.x && oMin.x == 0.0 && oMax.x == 1.0
    ensures b.pMax.y > b.pMin.y ==> o.y == t.y && oMin.y == 0.0 && oMax.y == 1.0
    ensures b.pMax.x <= b.pMin.x ==> o.x == b.Lerp(t).x - b.pMin.x && oMin.x == 0.0
    ensures b.pMax.y <= b.pMin.y ==> o.y == b.Lerp(t).y - b.pMin.y && oMin.y == 0.0
  {
    var r := b.Lerp(t);
    if b.pMax.x > b.pMin.x {
      AxisOffsetOfLerp(t.x, b.pMin.x, b.pMax.x);
      AxisOffsetUnique(r.x, b.pMin.x, b.pMax.x, o.x, t.x);
      AxisOffsetUnique(b.pMin.x, b.pMin.x, b.pMax.x, oMin.x, 0.0);
      AxisOffsetUnique(b.pMax.x, b.pMin.x, b.pMax.x, oMax.x, 1.0);
    }
    if b.pMax.y > b.pMin.y {
      AxisOffsetOfLerp(t.y, b.pMin.y, b.pMax.y);
      AxisOffsetUnique(r.y, b.pMin.y, b.pMax.y, o.y, t.y);
      AxisOffsetUnique(b.pMin.y, b.pMin.y, b.pMax.y, oMin.y, 0.0);
      AxisOffsetUnique(b.pMax.y, b.pMin.y, b.pMax.y, oMax.y, 1.0);
    }
  }

  /** With equal extents the longer axis is reported as 1, not 0. */
  lemma MaximumExtend2fSquare(b: Bounds2f)
    requires b.Diagonal().x == b.Diagonal().y
    ensures b.MaximumExtend() == 1
  {
  }

  /** The sentinel is inverted, and a box `From` a single point is
      well-formed with zero area. */
  lemma Bounds2fDegenerate(p: Point2f)
    ensures !Bounds2f.Default().WellFormed()
    ensures Bounds2f.From(p).WellFormed() && Bounds2f.From(p).Area() == 0.0
  {
  }

  /** A `Bounds2f` reached through `&mut`: the place that `b[i] = p` updates. */
  class Bounds2fVar {
    var pMin: Point2f
    var pMax: Point2f

    function Value(): Bounds2f
      reads this
    {
      Bounds2f(pMin, pMax)
    }

    constructor (b: Bounds2f)
      ensures Value() == b
    {
      pMin, pMax := b.pMin, b.pMax;
    }

    /** `b[i] = p` through `IndexMut`: corner `i` becomes `p` and the other
        corner stays; any index other than 0 or 1 panics. */
    method SetIndex(i: Usize, p: Point2f)
      requires i <= 1
      modifies this
      ensures Value().Index(i) == p
      ensures Value().Index(1 - i) == old(Value()).Index(1 - i)
    {
      if i == 0 {
        pMin := p;
      } else {
        pMax := p;
      }
    }
  }

  datatype Bounds3f = Bounds3f(pMin: Point3f, pMax: Point3f)
  {
    /** `b[i]`: 0 is `pMin`, 1 is `pMax`; any other index panics. */
    function Index(i: Usize): Point3f
      requires i <= 1
    {
      if i == 0 then pMin else pMax
    }

    /** Minimum corner below the maximum corner on every axis. */
    predicate WellFormed()
    {
      pMin.x <= pMax.x && pMin.y <= pMax.y && pMin.z <= pMax.z
    }

    /** The smallest box with both points as corners, whichever order they come in. */
    static function NewWithPoints(p1: Point3f, p2: Point3f): (r: Bounds3f)
      ensures r.WellFormed()
      ensures r.pMin.x <= p1.x <= r.pMax.x && r.pMin.y <= p1.y <= r.pMax.y && r.pMin.z <= p1.z <= r.pMax.z
      ensures r.pMin.x <= p2.x <= r.pMax.x && r.pMin.y <= p2.y <= r.pMax.y && r.pMin.z <= p2.z <= r.pMax.z
      ensures (r.pMin.x == p1.x || r.pMin.x == p2.x) && (r.pMax.x == p1.x || r.pMax.x == p2.x)
      ensures (r.pMin.y == p1.y || r.pMin.y == p2.y) && (r.pMax.y == p1.y || r.pMax.y == p2.y)
      ensures (r.pMin.z == p1.z || r.pMin.z == p2.z) && (r.pMax.z == p1.z || r.pMax.z == p2.z)
    {
      Bounds3f(Point3f(Pbrt.Min(p1.x, p2.x), Pbrt.Min(p1.y, p2.y), Pbrt.Min(p1.z, p2.z)),
               Point3f(Pbrt.Max(p1.x, p2.x), Pbrt.Max(p1.y, p2.y), Pbrt.Max(p1.z, p2.z)))
    }

    /** The empty-box sentinel: minimum at `Float::MAX`, maximum at `Float::MIN`. */
    static function Default(): Bounds3f
    {
      Bounds3f(Point3f(FLOAT_MAX, FLOAT_MAX, FLOAT_MAX), Point3f(FLOAT_MIN, FLOAT_MIN, FLOAT_MIN))
    }

    /** `Bounds3f::from(p)`: the degenerate box whose corners are both `p`. */
    static function From(p: Point3f): Bounds3f
    {
      Bounds3f(p, p)
    }

    /** Corner number `c` of the box: bit 0 of `c` picks the x coordinate
        from the minimum (0) or maximum (1) corner, bit 1 the y coordinate
        and bit 2 the z coordinate; higher bits are ignored. */
    function Corner(c: Usize): (r: Point3f)
      ensures r.x == Index(c % 2).x
      ensures r.y == Index((c / 2) % 2).y
      ensures r.z == Index((c / 4) % 2).z
    {
      var bits := c as bv64;
      var indexX := (bits & 1) as int;
      var indexY := if bits & 2 == 0 then 0 else 1;
      var indexZ := if bits & 4 == 0 then 0 else 1;
      CornerNumberBits(c);
      Point3f(Index(indexX).x, Index(indexY).y, Index(indexZ).z)
    }

    /** The box grown just enough to take in `p`. */
    function UnionPoint3f(p: Point3f): Bounds3f
    {
      Bounds3f(Point3f(Pbrt.Min(pMin.x, p.x), Pbrt.Min(pMin.y, p.y), Pbrt.Min(pMin.z, p.z)),
               Point3f(Pbrt.Max(pMax.x, p.x), Pbrt.Max(pMax.y, p.y), Pbrt.Max(pMax.z, p.z)))
    }

    /** The smallest box that takes in both boxes. */
    function Union(b: Bounds3f): Bounds3f
    {
      Bounds3f(Point3f(Pbrt.Min(pMin.x, b.pMin.x), Pbrt.Min(pMin.y, b.pMin.y), Pbrt.Min(pMin.z, b.pMin.z)),
               Point3f(Pbrt.Max(pMax.x, b.pMax.x), Pbrt.Max(pMax.y, b.pMax.y), Pbrt.Max(pMax.z, b.pMax.z)))
    }

    /** The common part of both boxes; inverted when they are disjoint. */
    function Intersect(b: Bounds3f): Bounds3f
    {
      Bounds3f(Point3f(Pbrt.Max(pMin.x, b.pMin.x), Pbrt.Max(pMin.y, b.pMin.y), Pbrt.Max(pMin.z, b.pMin.z)),
               Point3f(Pbrt.Min(pMax.x, b.pMax.x), Pbrt.Min(pMax.y, b.pMax.y), Pbrt.Min(pMax.z, b.pMax.z)))
    }

    /** Whether the two boxes' ranges meet, or touch, on every axis. */
    predicate Overlaps(b: Bounds3f)
    {
      var x := pMax.x >= b.pMin.x && pMin.x <= b.pMax.x;
      var y := pMax.y >= b.pMin.y && pMin.y <= b.pMax.y;
      var z := pMax.z >= b.pMin.z && pMin.z <= b.pMax.z;
      x && y && z
    }

    /** The box pushed out by `delta` on every side. */
    function Expand(delta: Float): (r: Bounds3f)
      ensures r.pMin == Point3f(pMin.x - delta, pMin.y - delta, pMin.z - delta)
      ensures r.pMax == Point3f(pMax.x + delta, pMax.y + delta, pMax.z + delta)
    {
      Bounds3f(pMin.SubVector(Vector3f(delta, delta, delta)), pMax.AddVector(Vector3f(delta, delta, delta)))
    }

    /** The vector from the minimum to the maximum corner. */
    function Diagonal(): (r: Vector3f)
      ensures pMin.AddVector(r) == pMax
    {
      pMax.Sub(pMin)
    }

    /** Twice the sum of the three face areas, never negative for a well-formed box. */
    function SurfaceArea(): (r: Float)
      ensures WellFormed() ==> r >= 0.0
    {
      var d := Diagonal();
      2.0 * (d.x * d.y + d.x * d.z + d.y * d.z)
    }

    /** The product of the three extents, never negative for a well-formed box. */
    function Volume(): (r: Float)
      ensures WellFormed() ==> r >= 0.0
    {
      var d := Diagonal();
      NonNegativeProduct(d.x, d.y, d.z);
      d.x * d.y * d.z
    }

    /** The axis of the longest extent; among equal longest extents the
        highest axis wins. */
    function MaximumExtend(): (r: Usize)
      ensures r <= 2
      ensures forall k :: 0 <= k <= 2 ==> Diagonal().Index(k) <= Diagonal().Index(r)
      ensures forall k :: r < k <= 2 ==> Diagonal().Index(k) < Diagonal().Index(r)
    {
      var d := Diagonal();
      if d.x > d.y && d.x > d.z then
        0
      else if d.y > d.z then
        1
      else
        2
    }

    /** Interpolation inside the box: each coordinate of `t` is the fraction
        of the way from the minimum to the maximum on its axis. */
    function Lerp(t: Point3f): (r: Point3f)
      ensures r.x - pMin.x == t.x * (pMax.x - pMin.x)
      ensures r.y - pMin.y == t.y * (pMax.y - pMin.y)
      ensures r.z - pMin.z == t.z * (pMax.z - pMin.z)
    {
      LerpAffine(t.x, pMin.x, pMax.x);
      LerpAffine(t.y, pMin.y, pMax.y);
      LerpAffine(t.z, pMin.z, pMax.z);
      Point3f(Pbrt.Lerp(t.x, pMin.x, pMax.x), Pbrt.Lerp(t.y, pMin.y, pMax.y), Pbrt.Lerp(t.z, pMin.z, pMax.z))
    }

    /** `o` is where `p` lies in the box, axis by axis, as `AxisOffset` says. */
    predicate IsOffset(p: Point3f, o: Vector3f)
    {
      AxisOffset(p.x, pMin.x, pMax.x, o.x)
      && AxisOffset(p.y, pMin.y, pMax.y, o.y)
      && AxisOffset(p.z, pMin.z, pMax.z, o.z)
    }

    /** `offset(p)`: starts from `p - pMin` and divides each component by the
        extent of its axis when that extent is positive. */
    method Offset(p: Point3f) returns (o: Vector3f)
      ensures IsOffset(p, o)
    {
      o := p.Sub(pMin);
      if pMax.x > pMin.x {
        o := o.(x := o.x / (pMax.x - pMin.x));
        AxisQuotient(p.x, pMin.x, pMax.x);
      }
      if pMax.y > pMin.y {
        o := o.(y := o.y / (pMax.y - pMin.y));
        AxisQuotient(p.y, pMin.y, pMax.y);
      }
      if pMax.z > pMin.z {
        o := o.(z := o.z / (pMax.z - pMin.z));
        AxisQuotient(p.z, pMin.z, pMax.z);
      }
    }
  }

  /** The masks `& 1`, `& 2` and `& 4` on a corner number read its bits 0, 1
      and 2, which are `c % 2`, `(c / 2) % 2` and `(c / 4) % 2`. */
  lemma CornerNumberBits(c: Usize)
    ensures ((c as bv64) & 1) as int == c % 2
    ensures ((c as bv64) & 2 == 0) <==> (c / 2) % 2 == 0
    ensures ((c as bv64) & 4 == 0) <==> (c / 4) % 2 == 0
  {
  }

  /** A product of three non-negative numbers is non-negative. */
  lemma NonNegativeProduct(a: Float, b: Float, c: Float)
    ensures a >= 0.0 && b >= 0.0 && c >= 0.0 ==> a * b * c >= 0.0
  {
    if a >= 0.0 && b >= 0.0 && c >= 0.0 {
      assert a * b >= 0.0;
      assert (a * b) * c >= 0.0;
    }
  }

  /** Building a box from two points does not depend on their order. */
  lemma NewWithPoints3fSymmetric(p1: Point3f, p2: Point3f)
    ensures Bounds3f.NewWithPoints(p1, p2) == Bounds3f.NewWithPoints(p2, p1)
  {
  }

  /** Union is commutative, associative and idempotent, and adding a point
      is the union with that point's degenerate box. */
  lemma UnionLattice(a: Bounds3f, b: Bounds3f, c: Bounds3f, p: Point3f)
    ensures a.Union(b) == b.Union(a)
    ensures a.Union(b).Union(c) == a.Union(b.Union(c))
    ensures a.Union(a) == a
    ensures a.UnionPoint3f(p) == a.Union(Bounds3f.From(p))
  {
  }

  /** The `Default` sentinel is the identity of union for boxes whose
      coordinates are finite floats, that is, lie in [Float::MIN, Float::MAX]. */
  lemma UnionDefaultIdentity(b: Bounds3f)
    requires FLOAT_MIN <= b.pMin.x <= FLOAT_MAX && FLOAT_MIN <= b.pMin.y <= FLOAT_MAX && FLOAT_MIN <= b.pMin.z <= FLOAT_MAX
    requires FLOAT_MIN <= b.pMax.x <= FLOAT_MAX && FLOAT_MIN <= b.pMax.y <= FLOAT_MAX && FLOAT_MIN <= b.pMax.z <= FLOAT_MAX
    ensures Bounds3f.Default().Union(b) == b
    ensures b.Union(Bounds3f.Default()) == b
  {
  }

  /** Intersection is commutative and idempotent, and overlapping is symmetric. */
  lemma IntersectLaws(a: Bounds3f, b: Bounds3f)
    ensures a.Intersect(b) == b.Intersect(a)
    ensures a.Intersect(a) == a
    ensures a.Overlaps(b) <==> b.Overlaps(a)
  {
  }

  /** For well-formed boxes, they overlap exactly when their intersection is
      well-formed. */
  lemma OverlapsIffIntersectWellFormed(a: Bounds3f, b: Bounds3f)
    requires a.WellFormed() && b.WellFormed()
    ensures a.Overlaps(b) <==> a.Intersect(b).WellFormed()
  {
  }

  /** Corner 0 is the minimum corner and corner 7 the maximum; only the low
      three bits of the corner number matter. */
  lemma {:induction false} CornerBits(b: Bounds3f, c: Usize)
    ensures b.Corner(0) == b.pMin && b.Corner(7) == b.pMax
    ensures b.Corner(c) == b.Corner(c % 8)
  {
    var q := c / 8;
    var m := c % 8;
    assert c == 8 * q + m;
    assert c / 2 == 4 * q + m / 2;
    assert c / 4 == 2 * q + m / 4;
    assert c % 2 == m % 2;
    assert (c / 2) % 2 == (m / 2) % 2;
    assert (c / 4) % 2 == (m / 4) % 2;
  }

  /** The eight corners of a box with positive extent on every axis are
      pairwise distinct. */
  lemma {:induction false} CornersDistinct(b: Bounds3f, c1: Usize, c2: Usize)
    requires b.pMin.x < b.pMax.x && b.pMin.y < b.pMax.y && b.pMin.z < b.pMax.z
    requires c1 < 8 && c2 < 8 && c1 != c2
    ensures b.Corner(c1) != b.Corner(c2)
  {
    CornerNumber(c1);
    CornerNumber(c2);
  }

  /** A corner number below 8 is the sum of its three bits. */
  lemma CornerNumber(c: Usize)
    requires c < 8
    ensures c == c % 2 + 2 * ((c / 2) % 2) + 4 * ((c / 4) % 2)
  {
    if c == 0 {
    } else if c == 1 {
    } else if c == 2 {
    } else if c == 3 {
    } else if c == 4 {
    } else if c == 5 {
    } else if c == 6 {
    } else {
    }
  }

  /** The longest axis is the diagonal's largest dimension; in particular a
      cube reports axis 2. */
  lemma MaximumExtendIsMaxDimension(b: Bounds3f)
    ensures b.MaximumExtend() == b.Diagonal().MaxDimension()
    ensures b.Diagonal().x == b.Diagonal().y == b.Diagonal().z ==> b.MaximumExtend() == 2
  {
  }

  /** On an axis of positive extent the offset of `lerp(t)` is `t`, the
      offset of the minimum corner is 0 and that of the maximum corner is 1;
      on any other axis it is the raw difference from the minimum. */
  lemma {:induction false} Offset3fOfLerp(b: Bounds3f, t: Point3f, o: Vector3f, oMin: Vector3f, oMax: Vector3f)
    requires b.IsOffset(b.Lerp(t), o) && b.IsOffset(b.pMin, oMin) && b.IsOffset(b.pMax, oMax)
    ensures b.pMax.x > b.pMin.x ==> o.x == t.x && oMin.x == 0.0 && oMax.x == 1.0
    ensures b.pMax.y > b.pMin.y ==> o.y == t.y && oMin.y == 0.0 && oMax.y == 1.0
    ensures b.pMax.z > b.pMin.z ==> o.z == t.z && oMin.z == 0.0 && oMax.z == 1.0
    ensures b.pMax.x <= b.pMin.x ==> o.x == b.Lerp(t).x - b.pMin.x && oMin.x == 0.0
    ensures b.pMax.y <= b.pMin.y ==> o.y == b.Lerp(t).y - b.pMin.y && oMin.y == 0.0
    ensures b.pMax.z <= b.pMin.z ==> o.z == b.Lerp(t).z - b.pMin.z && oMin.z == 0.0
  {
    var r := b.Lerp(t);
    if b.pMax.x > b.pMin.x {
      AxisOffsetOfLerp(t.x, b.pMin.x, b.pMax.x);
      AxisOffsetUnique(r.x, b.pMin.x, b.pMax.x, o.x, t.x);
      AxisOffsetUnique(b.pMin.x, b.pMin.x, b.pMax.x, oMin.x, 0.0);
      AxisOffsetUnique(b.pMax.x, b.pMin.x, b.pMax.x, oMax.x, 1.0);
    }
    if b.pMax.y > b.pMin.y {
      AxisOffsetOfLerp(t.y, b.pMin.y, b.pMax.y);
      AxisOffsetUnique(r.y, b.pMin.y, b.pMax.y, o.y, t.y);
      AxisOffsetUnique(b.pMin.y, b.pMin.y, b.pMax.y, oMin.y, 0.0);
      AxisOffsetUnique(b.pMax.y, b.pMin.y, b.pMax.y, oMax.y, 1.0);
    }
    if b.pMax.z > b.pMin.z {
      AxisOffsetOfLerp(t.z, b.pMin.z, b.pMax.z);
      AxisOffsetUnique(r.z, b.pMin.z, b.pMax.z, o.z, t.z);
      AxisOffsetUnique(b.pMin.z, b.pMin.z, b.pMax.z, oMin.z, 0.0);
      AxisOffsetUnique(b.pMax.z, b.pMin.z, b.pMax.z, oMax.z, 1.0);
    }
  }

  /** Interpolating at the offset of `p` gives `p` back when every axis has
      positive extent. */
  lemma LerpOfOffset3f(b: Bounds3f, p: Point3f, o: Vector3f)
    requires b.pMin.x < b.pMax.x && b.pMin.y < b.pMax.y && b.pMin.z < b.pMax.z
    requires b.IsOffset(p, o)
    ensures b.Lerp(Point3f(o.x, o.y, o.z)) == p
  {
  }

  /** Expanding by 0 changes nothing, expanding twice adds the amounts, and
      a non-negative amount keeps a well-formed box well-formed. */
  lemma ExpandLaws(b: Bounds3f, d1: Float, d2: Float)
    ensures b.Expand(0.0) == b
    ensures b.Expand(d1).Expand(d2) == b.Expand(d1 + d2)
    ensures b.WellFormed() && d1 >= 0.0 ==> b.Expand(d1).WellFormed()
  {
  }

  /** The sentinel is inverted; a box `From` a single point is well-formed
      with zero diagonal, volume and surface area. */
  lemma Bounds3fDegenerate(p: Point3f)
    ensures !Bounds3f.Default().WellFormed()
    ensures Bounds3f.From(p).WellFormed()
    ensures Bounds3f.From(p).Diagonal() == Vector3f(0.0, 0.0, 0.0)
    ensures Bounds3f.From(p).Volume() == 0.0 && Bounds3f.From(p).SurfaceArea() == 0.0
  {
  }

  /** A `Bounds3f` reached through `&mut`: the place that `b[i] = p` updates. */
  class Bounds3fVar {
    var pMin: Point3f
    var pMax: Point3f

    function Value(): Bounds3f
      reads this
    {
      Bounds3f(pMin, pMax)
    }

    constructor (b: Bounds3f)
      ensures Value() == b
    {
      pMin, pMax := b.pMin, b.pMax;
    }

    /** `b[i] = p` through `IndexMut`: corner `i` becomes `p` and the other
        corner stays; any index other than 0 or 1 panics. */
    method SetIndex(i: Usize, p: Point3f)
      requires i <= 1
      modifies this
      ensures Value().Index(i) == p
      ensures Value().Index(1 - i) == old(Value()).Index(1 - i)
    {
      if i == 0 {
        pMin := p;
      } else {
        pMax := p;
      }
    }
  }
}
