/** Positions (src/core/geometry/point.rs): `Point2f` and `Point3f` as values
    with their operators, `Point2fVar`/`Point3fVar` for the compound
    assignments and `IndexMut`, the `From` conversions and point `lerp`.
    Subtracting two points gives a vector; adding or subtracting a vector
    gives a point. Two operators declared elsewhere live here too, because
    this module is the first that can see both points and vectors:
    `Point3f + Vector3f` (src/core/geometry/misc.rs) and
    `From<Point3f> for Vector3f` (src/core/geometry/vector.rs). */
module Point {
  import opened Pbrt
  import opened Vector

  datatype Point2f = Point2f(x: Float, y: Float)
  {
    /** `p[i]`; any index other than 0 or 1 panics. */
    function Index(i: Usize): Float
      requires i <= 1
    {
      if i == 0 then x else y
    }

    /** `a + b` on two points, componentwise. */
    function Add(b: Point2f): Point2f
    {
      Point2f(x + b.x, y + b.y)
    }

    /** `a - b` on two points: the displacement from `b` to `a`. */
    function Sub(b: Point2f): Vector2f
    {
      Vector2f(x - b.x, y - b.y)
    }

    /** `p + v`: the point displaced by `v`. */
    function AddVector(v: Vector2f): Point2f
    {
      Point2f(x + v.x, y + v.y)
    }

    /** `p * s` */
    function Scale(s: Float): Point2f
    {
      Point2f(x * s, y * s)
    }

    /** `p / s`, computed as a multiplication by `1 / s`; a zero divisor gives
        non-finite components, outside the model. */
    function Div(s: Float): Point2f
      requires s != 0.0
    {
      var inv := 1.0 / s;
      Point2f(x * inv, y * inv)
    }
  }

  /** Displacing a point by the difference to another reaches the other; the
      displacement from `p` to `p + v` is `v`; division undoes scaling; the
      sum of two points is symmetric and lies `q`'s coordinates away from `p`. */
  lemma Point2fDisplacement(p: Point2f, q: Point2f, v: Vector2f, s: Float)
    ensures p.AddVector(q.Sub(p)) == q
    ensures p.Add(q) == q.Add(p) && p.Add(q).Sub(p) == Vector2f(q.x, q.y)
    ensures p.AddVector(v).Sub(p) == v
    ensures q.Sub(p) == p.Sub(q).Neg()
    ensures s != 0.0 ==> p.Scale(s).Div(s) == p
  {
  }

  /** The two components read back through `Index` rebuild the point. */
  lemma Point2fIndexReconstructs(p: Point2f)
    ensures Point2f(p.Index(0), p.Index(1)) == p
    ensures p.Index(0) == p.x && p.Index(1) == p.y
  {
  }

  /** A `Point2f` reached through `&mut`: the place that the compound
      assignments and `p[i] = value` update field by field. */
  class Point2fVar {
    var x: Float
    var y: Float

    function Value(): Point2f
      reads this
    {
      Point2f(x, y)
    }

    constructor (p: Point2f)
      ensures Value() == p
    {
      x, y := p.x, p.y;
    }

    /** `a += b` with a point operand. */
    method AddAssign(b: Point2f)
      modifies this
      ensures Value() == old(Value()).Add(b)
    {
      x := x + b.x;
      y := y + b.y;
    }

    /** `p += v` with a vector operand. */
    method AddAssignVector(v: Vector2f)
      modifies this
      ensures Value() == old(Value()).AddVector(v)
    {
      x := x + v.x;
      y := y + v.y;
    }

    /** `a -= b` with a point operand: the result stays a point. */
    method SubAssign(b: Point2f)
      modifies this
      ensures Value().Sub(Point2f(0.0, 0.0)) == old(Value()).Sub(b)
    {
      x := x - b.x;
      y := y - b.y;
    }

    /** `p -= v` with a vector operand; `p += v` afterwards restores `p`. */
    method SubAssignVector(v: Vector2f)
      modifies this
      ensures Value().AddVector(v) == old(Value())
    {
      x := x - v.x;
      y := y - v.y;
    }

    /** `p *= s` */
    method MulAssign(s: Float)
      modifies this
      ensures Value() == old(Value()).Scale(s)
    {
      x := x * s;
      y := y * s;
    }

    /** `p /= s`, by multiplication with `1 / s`; a zero divisor gives
        non-finite components, outside the model. */
    method DivAssign(s: Float)
      requires s != 0.0
      modifies this
      ensures Value() == old(Value()).Div(s)
    {
      var inv := 1.0 / s;
      x := x * inv;
      y := y * inv;
    }

    /** `p[i] = value` through `IndexMut`: only component `i` changes; any
        index other than 0 or 1 panics. */
    method SetIndex(i: Usize, value: Float)
      requires i <= 1
      modifies this
      ensures Value().Index(i) == value
      ensures Value().Index(1 - i) == old(Value()).Index(1 - i)
    {
      if i == 0 {
        x := value;
      } else {
        y := value;
      }
    }
  }

  datatype Point3f = Point3f(x: Float, y: Float, z: Float)
  {
    /** `p[i]`; any index other than 0, 1 or 2 panics. */
    function Index(i: Usize): Float
      requires i <= 2
    {
      if i == 0 then x else if i == 1 then y else z
    }

    /** `a + b` on two points, componentwise. */
    function Add(b: Point3f): Point3f
    {
      Point3f(x + b.x, y + b.y, z + b.z)
    }

    /** `a - b` on two points: the displacement from `b` to `a`. */
    function Sub(b: Point3f): Vector3f
    {
      Vector3f(x - b.x, y - b.y, z - b.z)
    }

    /** `p + v`: the point displaced by `v` (declared in misc.rs). */
    function AddVector(v: Vector3f): Point3f
    {
      Point3f(x + v.x, y + v.y, z + v.z)
    }

    /** `p - v`: the point displaced by `-v`. */
    function SubVector(v: Vector3f): Point3f
    {
      Point3f(x - v.x, y - v.y, z - v.z)
    }

    /** `p * s`, and equally `s * p`. */
    function Scale(s: Float): Point3f
    {
      Point3f(x * s, y * s, z * s)
    }

    /** `p / s`, computed as a multiplication by `1 / s`; a zero divisor gives
        non-finite components, outside the model. */
    function Div(s: Float): Point3f
      requires s != 0.0
    {
      var inv := 1.0 / s;
      Point3f(x * inv, y * inv, z * inv)
    }

    /** The squared length of the displacement between the two points. */
    function DistanceSquared(p: Point3f): (r: Float)
      ensures r >= 0.0
    {
      Sub(p).LengthSquared()
    }

    /** Componentwise minimum: below both operands, each component from one of them. */
    function Min(p: Point3f): (r: Point3f)
      ensures r.x <= x && r.x <= p.x && (r.x == x || r.x == p.x)
      ensures r.y <= y && r.y <= p.y && (r.y == y || r.y == p.y)
      ensures r.z <= z && r.z <= p.z && (r.z == z || r.z == p.z)
    {
      Point3f(Pbrt.Min(x, p.x), Pbrt.Min(y, p.y), Pbrt.Min(z, p.z))
    }

    /** Componentwise maximum: above both operands, each component from one of them. */
    function Max(p: Point3f): (r: Point3f)
      ensures r.x >= x && r.x >= p.x && (r.x == x || r.x == p.x)
      ensures r.y >= y && r.y >= p.y && (r.y == y || r.y == p.y)
      ensures r.z >= z && r.z >= p.z && (r.z == z || r.z == p.z)
    {
      Point3f(Pbrt.Max(x, p.x), Pbrt.Max(y, p.y), Pbrt.Max(z, p.z))
    }

    /** `permute(i, j, k)`: the point `(self[i], self[j], self[k])`; an
        index above 2 panics. */
    function Permute(i: Usize, j: Usize, k: Usize): Point3f
      requires i <= 2 && j <= 2 && k <= 2
    {
      Point3f(Index(i), Index(j), Index(k))
    }
  }

  /** Point-vector affine laws: `p + (q - p) == q`, `(p + v) - p == v`, and
      displacing by `v` then by `-v` (in either order) restores `p`; the sum
      of two points is symmetric and lies `q`'s coordinates away from `p`. */
  lemma Point3fDisplacement(p: Point3f, q: Point3f, v: Vector3f, s: Float)
    ensures p.AddVector(q.Sub(p)) == q
    ensures p.Add(q) == q.Add(p) && p.Add(q).Sub(p) == Vector3f(q.x, q.y, q.z)
    ensures p.AddVector(v).Sub(p) == v
    ensures p.SubVector(v).AddVector(v) == p && p.AddVector(v).SubVector(v) == p
    ensures p.SubVector(v) == p.AddVector(v.Neg())
    ensures q.Sub(p) == p.Sub(q).Neg()
    ensures s != 0.0 ==> p.Scale(s).Div(s) == p
  {
  }

  /** The squared distance is symmetric and zero from a point to itself. */
  lemma {:induction false} DistanceSquaredSymmetric(p: Point3f, q: Point3f)
    ensures p.DistanceSquared(q) == q.DistanceSquared(p)
    ensures p.DistanceSquared(p) == 0.0
  {
    var d := p.Sub(q);
    assert q.Sub(p) == d.Neg();
    NegatedSquare(d.x);
    NegatedSquare(d.y);
    NegatedSquare(d.z);
    assert p.Sub(p) == Vector3f(0.0, 0.0, 0.0);
  }

  /** Negation does not change a square. */
  lemma NegatedSquare(u: Float)
    ensures (-u) * (-u) == u * u
  {
  }

  /** The three components read back through `Index` rebuild the point. */
  lemma Point3fIndexReconstructs(p: Point3f)
    ensures Point3f(p.Index(0), p.Index(1), p.Index(2)) == p
    ensures p.Index(0) == p.x && p.Index(1) == p.y && p.Index(2) == p.z
  {
  }

  /** Each component of a permuted point is the component its index names;
      `permute(0, 1, 2)` is the identity and permuting twice composes the
      index maps. */
  lemma Point3fPermuteComponents(p: Point3f, i: Usize, j: Usize, k: Usize, a: Usize, b: Usize, c: Usize)
    requires i <= 2 && j <= 2 && k <= 2
    requires a <= 2 && b <= 2 && c <= 2
    ensures p.Permute(i, j, k).Index(0) == p.Index(i)
    ensures p.Permute(i, j, k).Index(1) == p.Index(j)
    ensures p.Permute(i, j, k).Index(2) == p.Index(k)
    ensures p.Permute(0, 1, 2) == p
    ensures p.Permute(i, j, k).Permute(a, b, c) == p.Permute([i, j, k][a], [i, j, k][b], [i, j, k][c])
  {
  }

  /** `lerp(t, p0, p1) = (1 - t) * p0 + t * p1`: the point a fraction `t` of
      the way from `p0` to `p1`. */
  function Lerp(t: Float, p0: Point3f, p1: Point3f): (r: Point3f)
    ensures r.Sub(p0) == p1.Sub(p0).Scale(t)
    ensures t == 0.0 ==> r == p0
    ensures t == 1.0 ==> r == p1
  {
    p0.Scale(1.0 - t).Add(p1.Scale(t))
  }

  /** `Point2f::from(Point3f)`: keeps `x` and `y` and drops `z`. */
  function Point2fFromPoint3f(p: Point3f): Point2f
  {
    Point2f(p.x, p.y)
  }

  /** The 2D point keeps `x` and `y`, and the `z` it drops makes no difference. */
  lemma Point2fFromPoint3fDropsZ(p: Point3f, z: Float)
    ensures Point2fFromPoint3f(p).x == p.x && Point2fFromPoint3f(p).y == p.y
    ensures Point2fFromPoint3f(p.(z := z)) == Point2fFromPoint3f(p)
  {
  }

  /** `Point3f::from(Vector3f)`: the point at the vector's offset from the origin. */
  function Point3fFromVector3f(v: Vector3f): (r: Point3f)
    ensures r.Sub(Point3f(0.0, 0.0, 0.0)) == v
  {
    Point3f(v.x, v.y, v.z)
  }

  /** `Vector3f::from(Point3f)`: the offset of the point from the origin. */
  function Vector3fFromPoint3f(p: Point3f): (r: Vector3f)
    ensures r == p.Sub(Point3f(0.0, 0.0, 0.0))
  {
    Vector3f(p.x, p.y, p.z)
  }

  /** The point and vector conversions are inverse to each other. */
  lemma PointVectorConversionRoundTrip(p: Point3f, v: Vector3f)
    ensures Point3fFromVector3f(Vector3fFromPoint3f(p)) == p
    ensures Vector3fFromPoint3f(Point3fFromVector3f(v)) == v
  {
  }

  /** A `Point3f` reached through `&mut`: the place that the compound
      assignments and `p[i] = value` update field by field. */
  class Point3fVar {
    var x: Float
    var y: Float
    var z: Float

    function Value(): Point3f
      reads this
    {
      Point3f(x, y, z)
    }

    constructor (p: Point3f)
      ensures Value() == p
    {
      x, y, z := p.x, p.y, p.z;
    }

    /** `a += b` with a point operand. */
    method AddAssign(b: Point3f)
      modifies this
      ensures Value() == old(Value()).Add(b)
    {
      x := x + b.x;
      y := y + b.y;
      z := z + b.z;
    }

    /** `a -= b` with a point operand: the result stays a point. */
    method SubAssign(b: Point3f)
      modifies this
      ensures Value().Sub(Point3f(0.0, 0.0, 0.0)) == old(Value()).Sub(b)
    {
      x := x - b.x;
      y := y - b.y;
      z := z - b.z;
    }

    /** `p += v` with a vector operand. */
    method AddAssignVector(v: Vector3f)
      modifies this
      ensures Value() == old(Value()).AddVector(v)
    {
      x := x + v.x;
      y := y + v.y;
      z := z + v.z;
    }

    /** `p -= v` with a vector operand. */
    method SubAssignVector(v: Vector3f)
      modifies this
      ensures Value() == old(Value()).SubVector(v)
    {
      x := x - v.x;
      y := y - v.y;
      z := z - v.z;
    }

    /** `p *= s` */
    method MulAssign(s: Float)
      modifies this
      ensures Value() == old(Value()).Scale(s)
    {
      x := x * s;
      y := y * s;
      z := z * s;
    }

    /** `p /= s`, by multiplication with `1 / s`; a zero divisor gives
        non-finite components, outside the model. */
    method DivAssign(s: Float)
      requires s != 0.0
      modifies this
      ensures Value() == old(Value()).Div(s)
    {
      var inv := 1.0 / s;
      x := x * inv;
      y := y * inv;
      z := z * inv;
    }

    /** `p[i] = value` through `IndexMut`: only component `i` changes; an
        index above 2 panics. */
    method SetIndex(i: Usize, value: Float)
      requires i <= 2
      modifies this
      ensures Value().Index(i) == value
      ensures forall k :: 0 <= k <= 2 && k != i ==> Value().Index(k) == old(Value()).Index(k)
    {
      if i == 0 {
        x := value;
      } else if i == 1 {
        y := value;
      } else {
        z := value;
      }
    }
  }

  /** `p -= v` followed by `p += v` leaves the place holding its old point. */
  method SubThenAddRestores(p: Point3fVar, v: Vector3f)
    modifies p
    ensures p.Value() == old(p.Value())
  {
    p.SubAssignVector(v);
    p.AddAssignVector(v);
    Point3fDisplacement(old(p.Value()), old(p.Value()), v, 1.0);
  }
}
