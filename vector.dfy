/** Displacements and directions (src/core/geometry/vector.rs): `Vector2f` and
    `Vector3f` as values with their operators, and `Vector2fVar`/`Vector3fVar`
    for the compound assignments and `IndexMut`, which update a vector in place.
    The conversion `From<Point3f> for Vector3f` is in module Point, since
    points already depend on vectors. */
module Vector {
  import opened Pbrt

  datatype Vector2f = Vector2f(x: Float, y: Float)
  {
    /** `v[i]`; any index other than 0 or 1 panics. */
    function Index(i: Usize): Float
      requires i <= 1
    {
      if i == 0 then x else y
    }

    /** `a + b` */
    function Add(b: Vector2f): Vector2f
    {
      Vector2f(x + b.x, y + b.y)
    }

    /** `a - b` */
    function Sub(b: Vector2f): Vector2f
    {
      Vector2f(x - b.x, y - b.y)
    }

    /** `a * s` */
    function Scale(s: Float): Vector2f
    {
      Vector2f(x * s, y * s)
    }

    /** `a / s`; a zero divisor gives non-finite components, outside the model. */
    function Div(s: Float): Vector2f
      requires s != 0.0
    {
      Vector2f(x / s, y / s)
    }

    /** `-a` */
    function Neg(): Vector2f
    {
      Vector2f(-x, -y)
    }

    function Dot(v: Vector2f): Float
    {
      x * v.x + y * v.y
    }

    function LengthSquared(): (r: Float)
      ensures r >= 0.0
    {
      x * x + y * y
    }
  }

  /** The two components read back through `Index` rebuild the vector. */
  lemma Index2fReconstructs(v: Vector2f)
    ensures Vector2f(v.Index(0), v.Index(1)) == v
    ensures v.Index(0) == v.x && v.Index(1) == v.y
  {
  }

  /** Subtraction undoes addition, negation is an involution, division undoes
      scaling, and the dot product is symmetric. */
  lemma Vector2fAlgebra(a: Vector2f, b: Vector2f, s: Float)
    ensures a.Add(b).Sub(b) == a && a.Sub(b).Add(b) == a
    ensures a.Neg().Neg() == a
    ensures s != 0.0 ==> a.Scale(s).Div(s) == a
    ensures a.Dot(b) == b.Dot(a)
    ensures a.LengthSquared() == a.Dot(a)
  {
  }

  /** A `Vector2f` reached through `&mut`: the place that `+=`, `-=`, `*=`, `/=`
      and `v[i] = value` update field by field. */
  class Vector2fVar {
    var x: Float
    var y: Float

    function Value(): Vector2f
      reads this
    {
      Vector2f(x, y)
    }

    constructor (v: Vector2f)
      ensures Value() == v
    {
      x, y := v.x, v.y;
    }

    /** `a += b` */
    method AddAssign(b: Vector2f)
      modifies this
      ensures Value() == old(Value()).Add(b)
    {
      x := x + b.x;
      y := y + b.y;
    }

    /** `a -= b` */
    method SubAssign(b: Vector2f)
      modifies this
      ensures Value() == old(Value()).Sub(b)
    {
      x := x - b.x;
      y := y - b.y;
    }

    /** `a *= s` */
    method MulAssign(s: Float)
      modifies this
      ensures Value() == old(Value()).Scale(s)
    {
      x := x * s;
      y := y * s;
    }

    /** `a /= s`; a zero divisor gives non-finite components, outside the model. */
    method DivAssign(s: Float)
      requires s != 0.0
      modifies this
      ensures Value() == old(Value()).Div(s)
    {
      x := x / s;
      y := y / s;
    }

    /** `v[i] = value` through `IndexMut`: only component `i` changes; any
        index other than 0 or 1 panics. */
    method SetIndex(i: Usize, value: Float)
      requires i <= 1
      modifies this
      ensures Value().Index(i) == value
      ensures Value().Index(1 - i) == old(Value()).Index(1 - i)
    {
      if i == 0 {
        x := value;
      } else {
        y := value;
      }
    }
  }

  datatype Vector3f = Vector3f(x: Float, y: Float, z: Float)
  {
    /** `v[i]`; any index other than 0, 1 or 2 panics. */
    function Index(i: Usize): Float
      requires i <= 2
    {
      if i == 0 then x else if i == 1 then y else z
    }

    /** `a + b` */
    function Add(b: Vector3f): Vector3f
    {
      Vector3f(x + b.x, y + b.y, z + b.z)
    }

    /** `a - b` */
    function Sub(b: Vector3f): Vector3f
    {
      Vector3f(x - b.x, y - b.y, z - b.z)
    }

    /** `a * s` */
    function Scale(s: Float): Vector3f
    {
      Vector3f(x * s, y * s, z * s)
    }

    /** `a / s`: the binary operator divides each component and, unlike `/=`,
        does not check the divisor; a zero divisor gives non-finite
        components, outside the model. */
    function Div(s: Float): Vector3f
      requires s != 0.0
    {
      Vector3f(x / s, y / s, z / s)
    }

    /** `-a` */
    function Neg(): Vector3f
    {
      Vector3f(-x, -y, -z)
    }

    function Dot(v: Vector3f): Float
    {
      x * v.x + y * v.y + z * v.z
    }

    /** `dot(v).abs()`: the magnitude of the dot product. */
    function AbsDot(v: Vector3f): (r: Float)
      ensures r >= 0.0
      ensures r == Dot(v) || r == -Dot(v)
    {
      Abs(Dot(v))
    }

    /** The cross product, orthogonal to both of its operands. */
    function Cross(v: Vector3f): (r: Vector3f)
      ensures Dot(r) == 0.0 && v.Dot(r) == 0.0
    {
      Vector3f(y * v.z - z * v.y, z * v.x - x * v.z, x * v.y - y * v.x)
    }

    function LengthSquared(): (r: Float)
      ensures r >= 0.0
    {
      x * x + y * y + z * z
    }

    /** The smallest component: no component is below it and it is one of them. */
    function MinComponent(): (r: Float)
      ensures r <= x && r <= y && r <= z
      ensures r == x || r == y || r == z
    {
      Pbrt.Min(x, Pbrt.Min(y, z))
    }

    /** The largest component: no component is above it and it is one of them. */
    function MaxComponent(): (r: Float)
      ensures r >= x && r >= y && r >= z
      ensures r == x || r == y || r == z
    {
      Pbrt.Max(x, Pbrt.Max(y, z))
    }

    /** The axis of the largest component; among equal largest components the
        highest index wins. */
    function MaxDimension(): (r: Usize)
      ensures r <= 2
      ensures Index(r) == MaxComponent()
      ensures forall k :: r < k <= 2 ==> Index(k) < Index(r)
    {
      if x > y then
        if x > z then 0 else 2
      else
        if y > z then 1 else 2
    }

    /** Componentwise minimum: below both operands, each component from one of them. */
    function Min(v: Vector3f): (r: Vector3f)
      ensures r.x <= x && r.x <= v.x && (r.x == x || r.x == v.x)
      ensures r.y <= y && r.y <= v.y && (r.y == y || r.y == v.y)
      ensures r.z <= z && r.z <= v.z && (r.z == z || r.z == v.z)
    {
      Vector3f(Pbrt.Min(x, v.x), Pbrt.Min(y, v.y), Pbrt.Min(z, v.z))
    }

    /** Componentwise maximum: above both operands, each component from one of them. */
    function Max(v: Vector3f): (r: Vector3f)
      ensures r.x >= x && r.x >= v.x && (r.x == x || r.x == v.x)
      ensures r.y >= y && r.y >= v.y && (r.y == y || r.y == v.y)
      ensures r.z >= z && r.z >= v.z && (r.z == z || r.z == v.z)
    {
      Vector3f(Pbrt.Max(x, v.x), Pbrt.Max(y, v.y), Pbrt.Max(z, v.z))
    }

    /** `permute(i, j, k)`: the vector `(self[i], self[j], self[k])`; an index
        above 2 panics. */
    function Permute(i: Usize, j: Usize, k: Usize): Vector3f
      requires i <= 2 && j <= 2 && k <= 2
    {
      Vector3f(Index(i), Index(j), Index(k))
    }
  }

  /** The three components read back through `Index` rebuild the vector. */
  lemma Index3fReconstructs(v: Vector3f)
    ensures Vector3f(v.Index(0), v.Index(1), v.Index(2)) == v
    ensures v.Index(0) == v.x && v.Index(1) == v.y && v.Index(2) == v.z
  {
  }

  /** Subtraction undoes addition, negation is an involution, division undoes
      scaling, and the dot product is symmetric. */
  lemma Vector3fAlgebra(a: Vector3f, b: Vector3f, s: Float)
    ensures a.Add(b).Sub(b) == a && a.Sub(b).Add(b) == a
    ensures a.Neg().Neg() == a
    ensures s != 0.0 ==> a.Scale(s).Div(s) == a
    ensures a.Dot(b) == b.Dot(a)
    ensures a.LengthSquared() == a.Dot(a)
  {
  }

  /** The cross product is anti-commutative, and a vector crossed with itself is zero. */
  lemma CrossAntiCommutative(a: Vector3f, b: Vector3f)
    ensures a.Cross(b) == b.Cross(a).Neg()
    ensures a.Cross(a) == Vector3f(0.0, 0.0, 0.0)
  {
  }

  /** The minimum component is at most the maximum component, and `AbsDot`
      bounds the dot product from both sides. */
  lemma ComponentOrder(a: Vector3f, b: Vector3f)
    ensures a.MinComponent() <= a.MaxComponent()
    ensures -a.AbsDot(b) <= a.Dot(b) <= a.AbsDot(b)
  {
  }

  /** Each component of a permuted vector is the component its index names;
      `permute(0, 1, 2)` is the identity and permuting twice composes the
      index maps. */
  lemma PermuteComponents(v: Vector3f, i: Usize, j: Usize, k: Usize, a: Usize, b: Usize, c: Usize)
    requires i <= 2 && j <= 2 && k <= 2
    requires a <= 2 && b <= 2 && c <= 2
    ensures v.Permute(i, j, k).Index(0) == v.Index(i)
    ensures v.Permute(i, j, k).Index(1) == v.Index(j)
    ensures v.Permute(i, j, k).Index(2) == v.Index(k)
    ensures v.Permute(0, 1, 2) == v
    ensures v.Permute(i, j, k).Permute(a, b, c) == v.Permute([i, j, k][a], [i, j, k][b], [i, j, k][c])
  {
  }

  /** A `Vector3f` reached through `&mut`: the place that `+=`, `-=`, `*=`, `/=`
      and `v[i] = value` update field by field. */
  class Vector3fVar {
    var x: Float
    var y: Float
    var z: Float

    function Value(): Vector3f
      reads this
    {
      Vector3f(x, y, z)
    }

    constructor (v: Vector3f)
      ensures Value() == v
    {
      x, y, z := v.x, v.y, v.z;
    }

    /** `a += b` */
    method AddAssign(b: Vector3f)
      modifies this
      ensures Value() == old(Value()).Add(b)
    {
      x := x + b.x;
      y := y + b.y;
      z := z + b.z;
    }

    /** `a -= b` */
    method SubAssign(b: Vector3f)
      modifies this
      ensures Value() == old(Value()).Sub(b)
    {
      x := x - b.x;
      y := y - b.y;
      z := z - b.z;
    }

    /** `a *= s` */
    method MulAssign(s: Float)
      modifies this
      ensures Value() == old(Value()).Scale(s)
    {
      x := x * s;
      y := y * s;
      z := z * s;
    }

    /** `a /= s`: asserts that `s` is non-zero, then multiplies by `1 / s`,
        which agrees with the binary `/`. */
    method DivAssign(s: Float)
      requires s != 0.0
      modifies this
      ensures Value() == old(Value()).Div(s)
    {
      var inv := 1.0 / s;
      x := x * inv;
      y := y * inv;
      z := z * inv;
    }

    /** `v[i] = value` through `IndexMut`: only component `i` changes; an index
        above 2 panics. */
    method SetIndex(i: Usize, value: Float)
      requires i <= 2
      modifies this
      ensures Value().Index(i) == value
      ensures forall k :: 0 <= k <= 2 && k != i ==> Value().Index(k) == old(Value()).Index(k)
    {
      if i == 0 {
        x := value;
      } else if i == 1 {
        y := value;
      } else {
        z := value;
      }
    }
  }
}
