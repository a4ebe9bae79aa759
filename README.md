# pbrt geometry core in Dafny

This project models the geometric core of the pbrt renderer (the Rust port).
The model covers:

- the scalar `Float` type and linear interpolation;
- the value types `Vector2f`, `Vector3f`, `Point2f`, `Point3f` and `Normal3f`, with their operators;
- the axis-aligned bounding boxes `Bounds2f` and `Bounds3f`;
- the containment predicates that say what "inside a box" means;
- `Ray`, with its optional `RayDifferential`.

`Float` (an f64) is modelled as an exact `real`. `Float::MIN` and
`Float::MAX` are exact constants. Every property proved here is therefore
the idealised, rounding-free version of what the renderer computes.

Each value type (`Vector2f`, `Vector3f`, `Point2f`, `Point3f`, `Normal3f`,
`Bounds2f`, `Bounds3f`, `RayDifferential`) becomes a Dafny `datatype`. `Ray`
is a class, because `scale_differentials` updates it in place, and `Float`
is a type alias. Each operator of a value type becomes a named member
function (`Add`, `Sub`, `Scale`, `Div`, `Neg`, `AddVector`, `SubVector`, and
so on). The point/vector/normal split is kept: point minus
point is a vector, and point plus vector is a point.

Some source code changes a value in place:

- the compound assignments `+=`, `-=`, `*=`, `/=`;
- `IndexMut`;
- `Ray::scale_differentials`.

Each of these is a `method` on a class (`Vector3fVar`, `Point3fVar`,
`Normal3fVar`, `Bounds3fVar`, `Ray`, ...). The class holds the fields, and
the method's postcondition gives the new state in terms of the old one.
`Bounds::offset` builds its result by updating a local vector axis by axis,
so it is a method too. Its postcondition is the predicate `IsOffset`, and
lemmas about `IsOffset` give the round trip with `lerp`.

Modules follow the source files:

| module | models |
|---|---|
| `Pbrt` | `src/core/pbrt.rs` |
| `Vector` | `vector.rs` |
| `Point` | `point.rs` |
| `Normal` | `normal.rs` |
| `Bounds` | `bounds.rs` |
| `Misc` | `misc.rs` |
| `Ray` | `ray.rs` |

Rust lets these files import each other in a cycle; Dafny modules may not.
So three pieces live next to the types they need:

- `Point3f + Vector3f` (misc.rs) is `Point.Point3f.AddVector`.
- `Vector3f::from(Point3f)` (vector.rs) is `Point.Vector3fFromPoint3f`.
- `bounding_sphere` (bounds.rs) calls the containment test of misc.rs, so it sits in `Misc`, beside that test.

`maximum_extend` gives ties to the higher axis: it tests
`d.x > d.y && d.x > d.z`, then `d.y > d.z`, so a cube answers 2 and a 2D box
with equal extents answers 1. `Vector3f::max_dimension` ties the same way, and
`Bounds.MaximumExtendIsMaxDimension` proves that the two agree on every box.

## Model

| member | source | states |
|---|---|---|
| Pbrt.SentinelOrder | src/core/geometry/bounds.rs:282-283 | `Float::MIN < 0 < Float::MAX`, so the empty-box sentinel is inverted |
| Pbrt.Min | src/core/geometry/bounds.rs:23-24 | `f64::min`: the result is ≤ both operands and is one of them |
| Pbrt.Max | src/core/geometry/bounds.rs:27-28 | `f64::max`: the result is ≥ both operands and is one of them |
| Pbrt.Abs | src/core/geometry/vector.rs:138-140 | `f64::abs`: the result is non-negative and is the operand or its negation |
| Pbrt.Lerp | src/core/pbrt.rs:3-5 | no contract; its laws are `LerpAffine` and `LerpBetween` |
| Pbrt.LerpAffine | src/core/pbrt.rs:3-5 | `lerp(t, a, b) - a == t·(b - a)`; `lerp(0, a, b) == a`; `lerp(1, a, b) == b`; `lerp(t, a, a) == a` for every `t` |
| Pbrt.LerpBetween | src/core/pbrt.rs:3-5 | for `t` in [0, 1], `lerp(t, a, b)` lies between `min(a, b)` and `max(a, b)` |
| Vector.Vector2f.Index | src/core/geometry/vector.rs:37-47 | no contract; indices above 1 are excluded, as the source panics; its laws are `Index2fReconstructs` |
| Vector.Vector2f.Add | src/core/geometry/vector.rs:59-61 | no contract; its laws are `Vector2fAlgebra` (`-` undoes `+`) |
| Vector.Vector2f.Sub | src/core/geometry/vector.rs:68-73 | no contract; its laws are `Vector2fAlgebra` (`+` undoes `-`) |
| Vector.Vector2f.Scale | src/core/geometry/vector.rs:80-85 | no contract; its laws are `Vector2fAlgebra` (`/ s` undoes `* s`) |
| Vector.Vector2f.Div | src/core/geometry/vector.rs:92-97 | requires a non-zero divisor (see "Left out"); its laws are `Vector2fAlgebra` |
| Vector.Vector2f.Neg | src/core/geometry/vector.rs:104 | no contract; its laws are `Vector2fAlgebra` (an involution) |
| Vector.Vector2f.Dot | src/core/geometry/vector.rs:32-34 | no contract; its laws are `Vector2fAlgebra` (symmetric, and `dot(a, a)` is the squared length) |
| Vector.Vector2f.LengthSquared | src/core/geometry/vector.rs:24-26 | the squared length is never negative |
| Vector.Index2fReconstructs | src/core/geometry/vector.rs:37-47 | index 0 reads x and 1 reads y; the two reads rebuild the vector |
| Vector.Vector2fAlgebra | src/core/geometry/vector.rs:24-104 | `-` undoes `+`; `-(-a) == a`; `/ s` undoes `* s` for `s ≠ 0`; `dot` is symmetric; the squared length is `dot(a, a)` |
| Vector.Vector2fVar.AddAssign | src/core/geometry/vector.rs:63-66 | after `a += b` the vector is the old `a + b` |
| Vector.Vector2fVar.SubAssign | src/core/geometry/vector.rs:75-78 | after `a -= b` the vector is the old `a - b` |
| Vector.Vector2fVar.MulAssign | src/core/geometry/vector.rs:87-90 | after `a *= s` the vector is the old `a * s` |
| Vector.Vector2fVar.DivAssign | src/core/geometry/vector.rs:99-102 | after `a /= s` the vector is the old `a / s` |
| Vector.Vector2fVar.SetIndex | src/core/geometry/vector.rs:49-57 | writing through `IndexMut(i)` sets component `i` and leaves the other unchanged |
| Vector.Vector3f.Index | src/core/geometry/vector.rs:199-210 | no contract; indices above 2 are excluded, as the source panics; its laws are `Index3fReconstructs` |
| Vector.Vector3f.Add | src/core/geometry/vector.rs:233-239 | no contract; its laws are `Vector3fAlgebra` (`-` undoes `+`) |
| Vector.Vector3f.Sub | src/core/geometry/vector.rs:247-253 | no contract; its laws are `Vector3fAlgebra` (`+` undoes `-`) |
| Vector.Vector3f.Scale | src/core/geometry/vector.rs:261-267 | no contract; its laws are `Vector3fAlgebra` (`/ s` undoes `* s`) |
| Vector.Vector3f.Div | src/core/geometry/vector.rs:275-281 | requires a non-zero divisor (see "Left out"); its laws are `Vector3fAlgebra` |
| Vector.Vector3f.Neg | src/core/geometry/vector.rs:291-297 | no contract; its laws are `Vector3fAlgebra` (an involution) and `CrossAntiCommutative` |
| Vector.Vector3f.Dot | src/core/geometry/vector.rs:134-136 | no contract; its laws are `Vector3fAlgebra` and `ComponentOrder` |
| Vector.Vector3f.Permute | src/core/geometry/vector.rs:190-196 | every index ≤ 2, as the source panics otherwise; its laws are `PermuteComponents` |
| Vector.Vector3f.AbsDot | src/core/geometry/vector.rs:138-140 | `abs_dot` is non-negative and is `dot` or `-dot` |
| Vector.Vector3f.Cross | src/core/geometry/vector.rs:142-148 | the cross product is orthogonal to both operands |
| Vector.Vector3f.LengthSquared | src/core/geometry/vector.rs:123-125 | the squared length is never negative |
| Vector.Vector3f.MinComponent | src/core/geometry/vector.rs:150-152 | no component is below the result, and the result is one of the components |
| Vector.Vector3f.MaxComponent | src/core/geometry/vector.rs:154-156 | no component is above the result, and the result is one of the components |
| Vector.Vector3f.MaxDimension | src/core/geometry/vector.rs:158-172 | the result is an axis in 0..2 whose component equals `max_component`; every higher axis is strictly smaller, so ties go to the higher axis |
| Vector.Vector3f.Min | src/core/geometry/vector.rs:174-180 | each component is ≤ both operands' components and equals one of them |
| Vector.Vector3f.Max | src/core/geometry/vector.rs:182-188 | each component is ≥ both operands' components and equals one of them |
| Vector.Index3fReconstructs | src/core/geometry/vector.rs:199-210 | indices 0, 1, 2 read x, y, z; the three reads rebuild the vector |
| Vector.Vector3fAlgebra | src/core/geometry/vector.rs:233-297 | `-` undoes `+`; `-(-a) == a`; `/ s` undoes `* s` for `s ≠ 0`; `dot` is symmetric; the squared length is `dot(a, a)` |
| Vector.CrossAntiCommutative | src/core/geometry/vector.rs:142-148 | `a × b == -(b × a)`; `a × a == 0` |
| Vector.ComponentOrder | src/core/geometry/vector.rs:138-156 | `min_component ≤ max_component`; `-abs_dot ≤ dot ≤ abs_dot` |
| Vector.PermuteComponents | src/core/geometry/vector.rs:190-196 | component `n` of `permute(i, j, k)` is the component its index names; `permute(0, 1, 2)` is the identity; permuting twice composes the index maps |
| Vector.Vector3fVar.AddAssign | src/core/geometry/vector.rs:241-245 | after `a += b` the vector is the old `a + b` |
| Vector.Vector3fVar.SubAssign | src/core/geometry/vector.rs:255-259 | after `a -= b` the vector is the old `a - b` |
| Vector.Vector3fVar.MulAssign | src/core/geometry/vector.rs:269-273 | after `a *= s` the vector is the old `a * s` |
| Vector.Vector3fVar.DivAssign | src/core/geometry/vector.rs:283-289 | `/=` demands a non-zero divisor, as its assertion does; it multiplies by `1/s`, and the result equals the old `a / s` |
| Vector.Vector3fVar.SetIndex | src/core/geometry/vector.rs:212-221 | writing through `IndexMut(i)` sets component `i` and leaves the other two unchanged |
| Point.Point2f.Index | src/core/geometry/point.rs:29-39 | no contract; indices above 1 are excluded, as the source panics; its laws are `Point2fIndexReconstructs` |
| Point.Point2f.Add | src/core/geometry/point.rs:57-62 | no contract; its laws are `Point2fDisplacement` (symmetric, `q`'s coordinates away from `p`) |
| Point.Point2f.Sub | src/core/geometry/point.rs:69-74 | no contract; point minus point is a vector; its laws are `Point2fDisplacement` |
| Point.Point2f.AddVector | src/core/geometry/point.rs:307-312 | no contract; its laws are `Point2fDisplacement` (`p + (q - p) == q`, `(p + v) - p == v`) |
| Point.Point2f.Scale | src/core/geometry/point.rs:86-91 | no contract; its laws are `Point2fDisplacement` (`/ s` undoes `* s`) |
| Point.Point2f.Div | src/core/geometry/point.rs:98-104 | requires a non-zero divisor (see "Left out"); its laws are `Point2fDisplacement` |
| Point.Point2fDisplacement | src/core/geometry/point.rs:57-110 | `p + (q - p) == q`; `(p + v) - p == v`; `q - p == -(p - q)`; `/ s` undoes `* s`; `p + q` is symmetric and `(p + q) - p` has `q`'s coordinates |
| Point.Point2fIndexReconstructs | src/core/geometry/point.rs:29-39 | index 0 reads x and 1 reads y; the two reads rebuild the point |
| Point.Point2fVar.AddAssign | src/core/geometry/point.rs:64-67 | after `p += q` the point is the old `p + q` |
| Point.Point2fVar.AddAssignVector | src/core/geometry/point.rs:314-317 | after `p += v` the point is the old `p + v` |
| Point.Point2fVar.SubAssign | src/core/geometry/point.rs:81-84 | after `p -= q` the point's coordinates are those of the old `p - q` |
| Point.Point2fVar.SubAssignVector | src/core/geometry/point.rs:76-79 | after `p -= v`, adding `v` gives back the old point |
| Point.Point2fVar.MulAssign | src/core/geometry/point.rs:93-96 | after `p *= s` the point is the old `p * s` |
| Point.Point2fVar.DivAssign | src/core/geometry/point.rs:106-110 | after `p /= s` the point is the old `p / s` |
| Point.Point2fVar.SetIndex | src/core/geometry/point.rs:41-49 | writing through `IndexMut(i)` sets coordinate `i` and leaves the other unchanged |
| Point.Point3f.Index | src/core/geometry/point.rs:197-208 | no contract; indices above 2 are excluded, as the source panics; its laws are `Point3fIndexReconstructs` |
| Point.Point3f.Add | src/core/geometry/point.rs:221-227 | no contract; its laws are `Point3fDisplacement` (symmetric, `q`'s coordinates away from `p`) |
| Point.Point3f.Sub | src/core/geometry/point.rs:235-241 | no contract; point minus point is a vector; its laws are `Point3fDisplacement` and `DistanceSquaredSymmetric` |
| Point.Point3f.AddVector | src/core/geometry/misc.rs:10-16 | no contract; its laws are `Point3fDisplacement` and `Misc.Point3fAddVector3fComponentwise` |
| Point.Point3f.SubVector | src/core/geometry/point.rs:293-299 | no contract; its laws are `Point3fDisplacement` (`p - v + v == p`, `p - v == p + (-v)`) |
| Point.Point3f.Scale | src/core/geometry/point.rs:249-263 | no contract; both `p * s` and `s * p`; its laws are `Point3fDisplacement` (`/ s` undoes `* s`) |
| Point.Point3f.Div | src/core/geometry/point.rs:271-278 | requires a non-zero divisor (see "Left out"); its laws are `Point3fDisplacement` |
| Point.Point3f.Permute | src/core/geometry/point.rs:178-184 | every index ≤ 2, as the source panics otherwise; its laws are `Point3fPermuteComponents` |
| Point.Point3f.DistanceSquared | src/core/geometry/point.rs:134-136 | the squared distance is never negative |
| Point.Point3f.Min | src/core/geometry/point.rs:138-144 | each coordinate is ≤ both arguments' coordinates and equals one of them |
| Point.Point3f.Max | src/core/geometry/point.rs:146-152 | each coordinate is ≥ both arguments' coordinates and equals one of them |
| Point.Point3fDisplacement | src/core/geometry/point.rs:221-305 | `p + (q - p) == q`; `(p + v) - p == v`; `p - v + v == p` and `p + v - v == p`; `p - v == p + (-v)`; `q - p == -(p - q)`; `/ s` undoes `* s`; `p + q` is symmetric and `(p + q) - p` has `q`'s coordinates |
| Point.DistanceSquaredSymmetric | src/core/geometry/point.rs:134-136 | `distance_squared(p, q) == distance_squared(q, p)`, and it is 0 from a point to itself |
| Point.Point3fIndexReconstructs | src/core/geometry/point.rs:197-208 | indices 0, 1, 2 read x, y, z; the three reads rebuild the point |
| Point.Point3fPermuteComponents | src/core/geometry/point.rs:178-184 | coordinate `n` of `permute(i, j, k)` is the coordinate its index names; `permute(0, 1, 2)` is the identity; permuting twice composes the index maps |
| Point.Lerp | src/core/geometry/point.rs:319-321 | `lerp(t, p0, p1) - p0 == t·(p1 - p0)`; it gives `p0` at `t = 0` and `p1` at `t = 1` |
| Point.Point2fFromPoint3fDropsZ | src/core/geometry/point.rs:51-55 | `Point2f::from(p)` keeps x and y and ignores z |
| Point.Point2fFromPoint3f | src/core/geometry/point.rs:51-55 | no contract; what it keeps and drops is `Point2fFromPoint3fDropsZ` |
| Point.Point3fFromVector3f | src/core/geometry/point.rs:187-195 | the point's displacement from the origin is the vector |
| Point.Vector3fFromPoint3f | src/core/geometry/vector.rs:223-231 | the vector is the point's displacement from the origin |
| Point.PointVectorConversionRoundTrip | src/core/geometry/point.rs:187-195 | point → vector → point and vector → point → vector both round-trip exactly |
| Point.Point3fVar.AddAssign | src/core/geometry/point.rs:229-233 | after `p += q` the point is the old `p + q` |
| Point.Point3fVar.SubAssign | src/core/geometry/point.rs:243-247 | after `p -= q` the point's coordinates are those of the old `p - q` |
| Point.Point3fVar.AddAssignVector | src/core/geometry/point.rs:287-291 | after `p += v` the point is the old `p + v` |
| Point.Point3fVar.SubAssignVector | src/core/geometry/point.rs:301-305 | after `p -= v` the point is the old `p - v` |
| Point.Point3fVar.MulAssign | src/core/geometry/point.rs:265-269 | after `p *= s` the point is the old `p * s` |
| Point.Point3fVar.DivAssign | src/core/geometry/point.rs:280-285 | after `p /= s` the point is the old `p / s` |
| Point.Point3fVar.SetIndex | src/core/geometry/point.rs:210-219 | writing through `IndexMut(i)` sets coordinate `i` and leaves the other two unchanged |
| Point.SubThenAddRestores | src/core/geometry/point.rs:287-305 | `p -= v` followed by `p += v` leaves `p` as it was |
| Normal.Normal3f.Index | src/core/geometry/normal.rs:81-92 | no contract; indices above 2 are excluded, as the source panics; its laws are `Normal3fIndexReconstructs` |
| Normal.Normal3f.Add | src/core/geometry/normal.rs:105-111 | no contract; its laws are `Normal3fAlgebra` (`-` undoes `+`) |
| Normal.Normal3f.Sub | src/core/geometry/normal.rs:119-125 | no contract; its laws are `Normal3fAlgebra` (`+` undoes `-`) |
| Normal.Normal3f.Scale | src/core/geometry/normal.rs:133-139 | no contract; its laws are `Normal3fAlgebra` (`/ s` undoes `* s`) |
| Normal.Normal3f.Div | src/core/geometry/normal.rs:147-154 | requires a non-zero divisor (see "Left out"); multiplies by `1 / s`; its laws are `Normal3fAlgebra` |
| Normal.Normal3f.Neg | src/core/geometry/normal.rs:163-169 | no contract; its laws are `Normal3fAlgebra` (an involution) and `NegatedDot` |
| Normal.Normal3f.Dot | src/core/geometry/normal.rs:32-34 | no contract; its laws are `AbsDotBoundsDot` (symmetric, bounded by `abs_dot`) and `NegatedDot` |
| Normal.Normal3f.FaceForward | src/core/geometry/normal.rs:40-46 | the result is `n` or `-n` and has a non-negative dot product with `v`; it is `n` itself when `dot(n, v) ≥ 0` |
| Normal.Normal3f.Abs | src/core/geometry/normal.rs:48-54 | every component is non-negative and is the original component or its negation |
| Normal.Normal3f.AbsDot | src/core/geometry/normal.rs:36-38 | no contract; `AbsDotBoundsDot` states that it is non-negative and bounds `±dot` |
| Normal.Vector3fFromNormal3f | src/core/geometry/normal.rs:61-69 | no contract; its round trip is `NormalVectorConversionRoundTrip` |
| Normal.Normal3fFromVector3f | src/core/geometry/normal.rs:71-79 | no contract; its round trip is `NormalVectorConversionRoundTrip` |
| Normal.Normal3f.LengthSquared | src/core/geometry/normal.rs:24-26 | the squared length is never negative |
| Normal.NormalVectorConversionRoundTrip | src/core/geometry/normal.rs:61-79 | normal → vector → normal and vector → normal → vector round-trip exactly; `dot` carries over |
| Normal.AbsDotBoundsDot | src/core/geometry/normal.rs:32-38 | `dot` is symmetric; `abs_dot` (the sum of `|aᵢ|·|bᵢ|`) is non-negative and ≥ both `dot` and `-dot` |
| Normal.Normal3fIndexReconstructs | src/core/geometry/normal.rs:81-92 | indices 0, 1, 2 read x, y, z; the three reads rebuild the normal |
| Normal.Normal3fAlgebra | src/core/geometry/normal.rs:105-169 | `-` undoes `+`; `-(-n) == n`; `/ s` undoes `* s` for `s ≠ 0` |
| Normal.Normal3fVar.AddAssign | src/core/geometry/normal.rs:113-117 | after `n += m` the normal is the old `n + m` |
| Normal.Normal3fVar.SubAssign | src/core/geometry/normal.rs:127-131 | after `n -= m` the normal is the old `n - m` |
| Normal.Normal3fVar.MulAssign | src/core/geometry/normal.rs:141-145 | after `n *= s` the normal is the old `n * s` |
| Normal.Normal3fVar.DivAssign | src/core/geometry/normal.rs:156-161 | after `n /= s` the normal is the old `n / s` |
| Normal.Normal3fVar.SetIndex | src/core/geometry/normal.rs:94-103 | writing through `IndexMut(i)` sets component `i` and leaves the other two unchanged |
| Bounds.AxisOffsetUnique | src/core/geometry/bounds.rs:217-229 | on each axis, at most one value is the offset of a given point |
| Bounds.AxisOffsetOfLerp | src/core/geometry/bounds.rs:209-229 | on an axis of positive extent, `t` is the offset of `lerp(t)`, 0 is the offset of the minimum and 1 that of the maximum |
| Bounds.Bounds2f.NewWithPoints | src/core/geometry/bounds.rs:20-31 | the box is well-formed and holds both points on each axis; each of its coordinates comes from one of the points |
| Bounds.Bounds2f.Default | src/core/geometry/bounds.rs:81-90 | no contract; `Bounds2fDegenerate` and `NonEmptyIffWellFormed` state that it is inverted and holds no point |
| Bounds.Bounds2f.From | src/core/geometry/bounds.rs:92-96 | no contract; `Bounds2fDegenerate` and `FromContainsExactly` state its laws |
| Bounds.Bounds2f.Index | src/core/geometry/bounds.rs:98-108 | no contract; 0 is `p_min`, 1 is `p_max`, and any other index is excluded by the precondition, as the source panics |
| Bounds.Bounds2f.Diagonal | src/core/geometry/bounds.rs:33-35 | the minimum corner plus the diagonal is the maximum corner |
| Bounds.Bounds2f.Area | src/core/geometry/bounds.rs:37-40 | the area of a well-formed box is non-negative |
| Bounds.Bounds2f.MaximumExtend | src/core/geometry/bounds.rs:42-49 | the chosen axis's extent is ≥ the other's; axis 0 only when its extent is strictly larger, so ties give 1 |
| Bounds.Bounds2f.Lerp | src/core/geometry/bounds.rs:51-56 | on each axis, the result sits `t` times the extent above the minimum |
| Bounds.Bounds2f.Offset | src/core/geometry/bounds.rs:58-67 | the result is the offset of `p`: the fraction of the extent on positive-extent axes, the raw difference `p - p_min` on the others |
| Bounds.NewWithPoints2fSymmetric | src/core/geometry/bounds.rs:20-31 | swapping the two points gives the same box |
| Bounds.Offset2fOfLerp | src/core/geometry/bounds.rs:51-67 | on positive-extent axes, `offset(lerp(t))` recovers `t`, `offset(p_min)` is 0 and `offset(p_max)` is 1; on other axes it is the raw difference |
| Bounds.MaximumExtend2fSquare | src/core/geometry/bounds.rs:42-49 | equal extents give axis 1 |
| Bounds.Bounds2fDegenerate | src/core/geometry/bounds.rs:81-96 | the `Default` box is not well-formed; `From(p)` is well-formed with area 0 |
| Bounds.Bounds2fVar.SetIndex | src/core/geometry/bounds.rs:110-118 | writing through `IndexMut(i)` replaces corner `i` and leaves the other |
| Bounds.Bounds3f.NewWithPoints | src/core/geometry/bounds.rs:128-141 | the box is well-formed and holds both points on every axis; each of its coordinates comes from one of the points |
| Bounds.Bounds3f.Default | src/core/geometry/bounds.rs:280-289 | no contract; `Bounds3fDegenerate`, `UnionDefaultIdentity` and `NonEmptyIffWellFormed` state its laws |
| Bounds.Bounds3f.From | src/core/geometry/bounds.rs:291-295 | no contract; `Bounds3fDegenerate` and `FromContainsExactly` state its laws |
| Bounds.Bounds3f.Index | src/core/geometry/bounds.rs:297-307 | no contract; 0 is `p_min`, 1 is `p_max`, and any other index is excluded by the precondition, as the source panics |
| Bounds.Bounds3f.UnionPoint3f | src/core/geometry/bounds.rs:154-167 | no contract; its laws are `UnionLattice` and `UnionPoint3fContains` |
| Bounds.Bounds3f.Union | src/core/geometry/bounds.rs:169-182 | no contract; its laws are `UnionLattice`, `UnionDefaultIdentity` and `UnionContains` |
| Bounds.Bounds3f.Intersect | src/core/geometry/bounds.rs:242-255 | no contract; its laws are `IntersectLaws`, `OverlapsIffIntersectWellFormed` and `IntersectContains` |
| Bounds.Bounds3f.Overlaps | src/core/geometry/bounds.rs:257-262 | no contract; its laws are `IntersectLaws`, `OverlapsIffIntersectWellFormed` and `OverlapsIffCommonPoint` |
| Bounds.Bounds3f.Corner | src/core/geometry/bounds.rs:143-152 | computed with the source's bit masks; x comes from `b[c % 2]`, y from `b[(c / 2) % 2]` and z from `b[(c / 4) % 2]` |
| Bounds.CornerNumberBits | src/core/geometry/bounds.rs:144-146 | the masks `corner & 1`, `& 2` and `& 4` read bits 0, 1 and 2 of the corner number, that is `c % 2`, `(c / 2) % 2` and `(c / 4) % 2` |
| Bounds.Bounds3f.Expand | src/core/geometry/bounds.rs:264-269 | every minimum coordinate drops by `delta` and every maximum coordinate rises by `delta` |
| Bounds.Bounds3f.Diagonal | src/core/geometry/bounds.rs:184-186 | the minimum corner plus the diagonal is the maximum corner |
| Bounds.Bounds3f.SurfaceArea | src/core/geometry/bounds.rs:188-191 | the surface area of a well-formed box is non-negative |
| Bounds.Bounds3f.Volume | src/core/geometry/bounds.rs:193-196 | the volume of a well-formed box is non-negative |
| Bounds.Bounds3f.MaximumExtend | src/core/geometry/bounds.rs:198-207 | the chosen axis's extent is ≥ every axis's; every higher axis is strictly shorter, so ties go to the higher axis |
| Bounds.Bounds3f.Lerp | src/core/geometry/bounds.rs:209-215 | on each axis, the result sits `t` times the extent above the minimum |
| Bounds.Bounds3f.Offset | src/core/geometry/bounds.rs:217-229 | the result is the offset of `p`: the fraction of the extent on positive-extent axes, the raw difference `p - p_min` on the others |
| Bounds.NewWithPoints3fSymmetric | src/core/geometry/bounds.rs:128-141 | swapping the two points gives the same box |
| Bounds.UnionLattice | src/core/geometry/bounds.rs:154-182 | union is commutative, associative and idempotent; `union_point3f(p)` is the union with `From(p)` |
| Bounds.UnionDefaultIdentity | src/core/geometry/bounds.rs:169-182 | union with the `Default` sentinel, on either side, returns a box whose coordinates lie in [MIN, MAX] unchanged |
| Bounds.IntersectLaws | src/core/geometry/bounds.rs:242-262 | intersect is commutative and idempotent; overlaps is symmetric |
| Bounds.OverlapsIffIntersectWellFormed | src/core/geometry/bounds.rs:242-262 | two well-formed boxes overlap if and only if their intersection is well-formed |
| Bounds.CornerBits | src/core/geometry/bounds.rs:143-152 | `corner(0) == p_min`; `corner(7) == p_max`; `corner(c) == corner(c % 8)` |
| Bounds.CornersDistinct | src/core/geometry/bounds.rs:143-152 | in a box of positive extent on every axis, the eight corners are pairwise different |
| Bounds.MaximumExtendIsMaxDimension | src/core/geometry/bounds.rs:198-207 | `maximum_extend` is the diagonal's `max_dimension`; a cube gives axis 2 |
| Bounds.Offset3fOfLerp | src/core/geometry/bounds.rs:209-229 | on positive-extent axes, `offset(lerp(t))` recovers `t`, `offset(p_min)` is 0 and `offset(p_max)` is 1; on other axes it is the raw difference |
| Bounds.LerpOfOffset3f | src/core/geometry/bounds.rs:209-229 | in a box of positive extent, `lerp(offset(p)) == p` |
| Bounds.ExpandLaws | src/core/geometry/bounds.rs:264-269 | `expand(0)` is the identity; expanding twice adds the amounts; a non-negative amount keeps a well-formed box well-formed |
| Bounds.Bounds3fDegenerate | src/core/geometry/bounds.rs:280-295 | the `Default` box is not well-formed; `From(p)` is well-formed with zero diagonal, volume and surface area |
| Bounds.Bounds3fVar.SetIndex | src/core/geometry/bounds.rs:309-317 | writing through `IndexMut(i)` replaces corner `i` and leaves the other |
| Misc.Point3fSubVector2f | src/core/geometry/misc.rs:18-23 | adding the vector back gives the projection of the point to 2D |
| Misc.Point3fSubVector2fDropsZ | src/core/geometry/misc.rs:18-23 | the result does not depend on z; subtracting the zero vector is the plain projection |
| Misc.Point3fAddVector3fComponentwise | src/core/geometry/misc.rs:10-16 | `Point3f + Vector3f` adds componentwise, and subtracting the point gives back the vector |
| Misc.InsideBounds2f | src/core/geometry/misc.rs:26-28 | no contract; the predicate is what "inside" means, and the containment lemmas below are stated through it |
| Misc.InsideBounds3f | src/core/geometry/misc.rs:30-37 | no contract; the predicate is what "inside" means, and the containment lemmas below are stated through it |
| Misc.InsideExclusiveBounds3f | src/core/geometry/misc.rs:39-46 | no contract; its laws are `ExclusiveContainment` |
| Misc.ExclusiveContainment | src/core/geometry/misc.rs:30-46 | exclusive containment implies inclusive; `p_max` is never exclusively inside its own box |
| Misc.NonEmptyIffWellFormed | src/core/geometry/misc.rs:26-37 | a box holding a point is well-formed; a well-formed box holds its corners; no point is inside the `Default` sentinel, in 2D or 3D |
| Misc.FromContainsExactly | src/core/geometry/misc.rs:26-37 | `From(p)` holds `q` if and only if `q == p`, in 2D and 3D |
| Misc.NewWithPointsContains | src/core/geometry/bounds.rs:128-141 | the box from two points holds both, in 2D and 3D |
| Misc.UnionPoint3fContains | src/core/geometry/bounds.rs:154-167 | `union_point3f(b, p)` holds `p` and everything `b` held |
| Misc.UnionContains | src/core/geometry/bounds.rs:169-182 | the union holds everything either box holds |
| Misc.IntersectContains | src/core/geometry/bounds.rs:242-255 | a point is inside the intersection if and only if it is inside both boxes |
| Misc.OverlapsIffCommonPoint | src/core/geometry/bounds.rs:257-262 | two well-formed boxes overlap if and only if some point is inside both |
| Misc.ExpandContains | src/core/geometry/bounds.rs:264-269 | expanding by a non-negative amount keeps every contained point inside |
| Misc.LerpInside | src/core/geometry/bounds.rs:209-215 | with `t` in the unit cube, `lerp(t)` is inside a well-formed box; `lerp(0,0,0) == p_min`; `lerp(1,1,1) == p_max` |
| Misc.Lerp2fInside | src/core/geometry/bounds.rs:51-56 | with `t` in the unit square, `lerp(t)` is inside a well-formed box; `lerp(0,0) == p_min`; `lerp(1,1) == p_max` |
| Misc.OffsetInUnitCube | src/core/geometry/bounds.rs:217-229 | a point inside any box has its offset in the unit cube, flat axes included |
| Misc.BoundingSphere2f | src/core/geometry/bounds.rs:69-78 | the center is the midpoint; it is inside exactly when the box is well-formed; the squared radius is non-negative, and 0 for a box that is not well-formed |
| Misc.BoundingSphere3f | src/core/geometry/bounds.rs:231-240 | the center is the midpoint; it is inside exactly when the box is well-formed; if inside, the squared radius is `distance_squared(center, p_max)`, otherwise 0 |
| Misc.BoundingSphereHoldsCorner | src/core/geometry/bounds.rs:231-240 | every corner of a well-formed box is exactly the radius away from the center |
| Ray.ScaledDifferential | src/core/geometry/ray.rs:27-34 | after scaling, each offset origin is `s` times its old offset from `o`, and each offset direction `s` times its old offset from `d` |
| Ray.ScaledDifferentialEnds | src/core/geometry/ray.rs:29-32 | scaling by 1 changes nothing; scaling by 0 puts both origins on `o` and both directions on `d` |
| Ray.ScaledDifferentialComposes | src/core/geometry/ray.rs:29-32 | scaling by `s` and then by `t` is scaling by `s·t` |
| Ray.Ray.Position | src/core/geometry/ray.rs:23-25 | `position(t) - o == d·t`; `position(0) == o` |
| Ray.Ray.ScaleDifferentials | src/core/geometry/ray.rs:27-34 | with no differential nothing changes; otherwise the differential becomes its scaled version; `o`, `d`, `t_max`, `time` and `medium` are unchanged |
| Ray.PositionAffine | src/core/geometry/ray.rs:23-25 | stepping `t` and then `u` along the ray is stepping `t + u` |
| Ray.ScaleDifferentialsTwice | src/core/geometry/ray.rs:27-34 | two calls with `s` and `t` act as one call with `s·t`, and the main ray does not move |

## Left out

- IEEE-754 behaviour is left out: NaN, infinities, signed zero and rounding. `Float` is an exact real, so every `has_nans` is left out too.
- Vector.Vector2f.Div: requires a non-zero divisor. The source divides unchecked and gets infinities or NaN, which have no real value.
- Vector.Vector3f.Div: requires a non-zero divisor, for the same reason. Only `/=` asserts this in the source.
- Vector.Vector2fVar.DivAssign: requires a non-zero divisor, for the same reason.
- Point.Point2f.Div: requires a non-zero divisor, for the same reason.
- Point.Point3f.Div: requires a non-zero divisor, for the same reason.
- Point.Point2fVar.DivAssign: requires a non-zero divisor, for the same reason.
- Point.Point3fVar.DivAssign: requires a non-zero divisor, for the same reason.
- Normal.Normal3f.Div: requires a non-zero divisor, for the same reason.
- Normal.Normal3fVar.DivAssign: requires a non-zero divisor, for the same reason.
- Everything built on `sqrt` is left out, because a square root has no exact real counterpart here. That covers `length`, `Vector3f::normalize`, `Point2f::distance`, `Point3f::distance`, `Normal3f::normalize` and `vec3_coordinate_system`.
- Misc.BoundingSphere2f and Misc.BoundingSphere3f: return the squared radius, not the radius, because `distance` takes a square root.
- `floor`, `ceil` and `abs` on points are left out, because they are float-library calls.
- `Bounds3f::intersect_b` and `Bounds3f::intersect_p` are left out: they are `unimplemented!()` and have no behaviour to model.
- Ray.Ray.tMax: a plain field rather than a `Cell`. Nothing in these files writes it, so interior mutability does not arise.
- The medium of a ray is an opaque identity (`MediumRef`). The `Medium` type is not part of this model.
- `impl_op_ex!` is an operator-overloading macro, not behaviour. Each operator is a named function instead, under one name for the owned and borrowed operand forms.
- The derived `Default` for `Ray` and the `new` constructors of the value types are left out, because they only fill fields. The datatype constructors play their part.
- Panics on an out-of-range `Index`/`IndexMut` index are preconditions (`i <= 1` or `i <= 2`), since a panic has no result.
- Vector.Vector2f.LengthSquared, Vector.Vector3f.LengthSquared and Normal.Normal3f.LengthSquared: state only non-negativity, which is all the source relies on. That the sum is zero exactly for the zero vector is not stated.
