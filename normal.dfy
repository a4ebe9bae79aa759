/** Surface normals (src/core/geometry/normal.rs): `Normal3f`, algebraically a
    vector but a distinct type, with its operators, `face_forward`, and the
    explicit conversions to and from `Vector3f`; `Normal3fVar` is the place
    that the compound assignments and `IndexMut` update. */
module Normal {
  import opened Pbrt
  import opened Vector

  datatype Normal3f = Normal3f(x: Float, y: Float, z: Float)
  {
    /** `n[i]`; any index other than 0, 1 or 2 panics. */
    function Index(i: Usize): Float
      requires i <= 2
    {
      if i == 0 then x else if i == 1 then y else z
    }

    /** `a + b` */
    function Add(b: Normal3f): Normal3f
    {
      Normal3f(x + b.x, y + b.y, z + b.z)
    }

    /** `a - b` */
    function Sub(b: Normal3f): Normal3f
    {
      Normal3f(x - b.x, y - b.y, z - b.z)
    }

    /** `n * s` */
    function Scale(s: Float): Normal3f
    {
      Normal3f(x * s, y * s, z * s)
    }

    /** `n / s`, computed as a multiplication by `1 / s`; a zero divisor gives
        non-finite components, outside the model. */
    function Div(s: Float): Normal3f
      requires s != 0.0
    {
      var inv := 1.0 / s;
      Normal3f(x * inv, y * inv, z * inv)
    }

    /** `-n` */
    function Neg(): Normal3f
    {
      Normal3f(-x, -y, -z)
    }

    function Dot(v: Normal3f): Float
    {
      x * v.x + y * v.y + z * v.z
    }

    /** Unlike `Vector3f::abs_dot`, the sum of the products of the component
        magnitudes, `|x|·|v.x| + |y|·|v.y| + |z|·|v.z|`. */
    function AbsDot(v: Normal3f): Float
    {
      Pbrt.Abs(x) * Pbrt.Abs(v.x) + Pbrt.Abs(y) * Pbrt.Abs(v.y) + Pbrt.Abs(z) * Pbrt.Abs(v.z)
    }

    /** The normal flipped, if need be, into the half-space of `v`: either the
        normal itself or its negation, never pointing away from `v`. */
    function FaceForward(v: Normal3f): (r: Normal3f)
      ensures r == this || r == Neg()
      ensures r.Dot(v) >= 0.0
      ensures Dot(v) >= 0.0 ==> r == this
    {
      if Dot(v) < 0.0 then
        NegatedDot(this, v);
        Neg()
      else
        this
    }

    /** Componentwise magnitude. */
    function Abs(): (r: Normal3f)
      ensures r.x >= 0.0 && r.y >= 0.0 && r.z >= 0.0
      ensures (r.x == x || r.x == -x) && (r.y == y || r.y == -y) && (r.z == z || r.z == -z)
    {
      Normal3f(Pbrt.Abs(x), Pbrt.Abs(y), Pbrt.Abs(z))
    }

    function LengthSquared(): (r: Float)
      ensures r >= 0.0
    {
      x * x + y * y + z * z
    }
  }

  /** `Vector3f::from(Normal3f)` */
  function Vector3fFromNormal3f(n: Normal3f): Vector3f
  {
    Vector3f(n.x, n.y, n.z)
  }

  /** `Normal3f::from(Vector3f)` */
  function Normal3fFromVector3f(v: Vector3f): Normal3f
  {
    Normal3f(v.x, v.y, v.z)
  }

  /** Negating a normal negates its dot product with any other. */
  lemma NegatedDot(n: Normal3f, v: Normal3f)
    ensures n.Neg().Dot(v) == -n.Dot(v)
  {
    assert (-n.x) * v.x == -(n.x * v.x);
    assert (-n.y) * v.y == -(n.y * v.y);
    assert (-n.z) * v.z == -(n.z * v.z);
  }

  /** The conversions between normals and vectors round-trip exactly and carry
      the dot product across. */
  lemma NormalVectorConversionRoundTrip(n: Normal3f, m: Normal3f, v: Vector3f)
    ensures Normal3fFromVector3f(Vector3fFromNormal3f(n)) == n
    ensures Vector3fFromNormal3f(Normal3fFromVector3f(v)) == v
    ensures Vector3fFromNormal3f(n).Dot(Vector3fFromNormal3f(m)) == n.Dot(m)
  {
  }

  /** The dot product is symmetric, and `AbsDot` is non-negative and bounds
      the dot product's magnitude from above. */
  lemma {:induction false} AbsDotBoundsDot(a: Normal3f, b: Normal3f)
    ensures a.Dot(b) == b.Dot(a)
    ensures a.AbsDot(b) >= 0.0
    ensures a.AbsDot(b) >= a.Dot(b) && a.AbsDot(b) >= -a.Dot(b)
  {
    ProductMagnitude(a.x, b.x);
    ProductMagnitude(a.y, b.y);
    ProductMagnitude(a.z, b.z);
  }

  /** The product of two magnitudes is non-negative and bounds the product
      of the values from both sides. */
  lemma ProductMagnitude(u: Float, w: Float)
    ensures Pbrt.Abs(u) * Pbrt.Abs(w) >= 0.0
    ensures -(Pbrt.Abs(u) * Pbrt.Abs(w)) <= u * w <= Pbrt.Abs(u) * Pbrt.Abs(w)
  {
    if u >= 0.0 && w >= 0.0 {
      assert u * w >= 0.0;
    } else if u >= 0.0 {
      assert Pbrt.Abs(u) * Pbrt.Abs(w) == -(u * w);
      assert u * (-w) >= 0.0;
    } else if w >= 0.0 {
      assert Pbrt.Abs(u) * Pbrt.Abs(w) == -(u * w);
      assert (-u) * w >= 0.0;
    } else {
      assert Pbrt.Abs(u) * Pbrt.Abs(w) == u * w;
      assert (-u) * (-w) >= 0.0;
    }
  }

  /** The three components read back through `Index` rebuild the normal. */
  lemma Normal3fIndexReconstructs(n: Normal3f)
    ensures Normal3f(n.Index(0), n.Index(1), n.Index(2)) == n
    ensures n.Index(0) == n.x && n.Index(1) == n.y && n.Index(2) == n.z
  {
  }

  /** Subtraction undoes addition, negation is an involution and division
      undoes scaling. */
  lemma Normal3fAlgebra(a: Normal3f, b: Normal3f, s: Float)
    ensures a.Add(b).Sub(b) == a && a.Sub(b).Add(b) == a
    ensures a.Neg().Neg() == a
    ensures s != 0.0 ==> a.Scale(s).Div(s) == a
  {
  }

  /** A `Normal3f` reached through `&mut`: the place that `+=`, `-=`, `*=`,
      `/=` and `n[i] = value` update field by field. */
  class Normal3fVar {
    var x: Float
    var y: Float
    var z: Float

    function Value(): Normal3f
      reads this
    {
      Normal3f(x, y, z)
    }

    constructor (n: Normal3f)
      ensures Value() == n
    {
      x, y, z := n.x, n.y, n.z;
    }

    /** `a += b` */
    method AddAssign(b: Normal3f)
      modifies this
      ensures Value() == old(Value()).Add(b)
    {
      x := x + b.x;
      y := y + b.y;
      z := z + b.z;
    }

    /** `a -= b` */
    method SubAssign(b: Normal3f)
      modifies this
      ensures Value() == old(Value()).Sub(b)
    {
      x := x - b.x;
      y := y - b.y;
      z := z - b.z;
    }

    /** `n *= s` */
    method MulAssign(s: Float)
      modifies this
      ensures Value() == old(Value()).Scale(s)
    {
      x := x * s;
      y := y * s;
      z := z * s;
    }

    /** `n /= s`, by multiplication with `1 / s`; a zero divisor gives
        non-finite components, outside the model. */
    method DivAssign(s: Float)
      requires s != 0.0
      modifies this
      ensures Value() == old(Value()).Div(s)
    {
      var inv := 1.0 / s;
      x := x * inv;
      y := y * inv;
      z := z * inv;
    }

    /** `n[i] = value` through `IndexMut`: only component `i` changes; an
        index above 2 panics. */
    method SetIndex(i: Usize, value: Float)
      requires i <= 2
      modifies this
      ensures Value().Index(i) == value
      ensures forall k :: 0 <= k <= 2 && k != i ==> Value().Index(k) == old(Value()).Index(k)
    {
      if i == 0 {
        x := value;
      } else if i == 1 {
        y := value;
      } else {
        z := value;
      }
    }
  }
}
