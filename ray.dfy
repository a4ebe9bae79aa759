/** Rays (src/core/geometry/ray.rs): an origin, a direction, the parametric
    upper limit `tMax`, a time, the medium the origin is in, and an optional
    pair of offset rays for texture filtering. `Ray` is a class because
    `scale_differentials` rewrites the differential in place. */
module Ray {
  import opened Pbrt
  import opened Vector
  import opened Point

  datatype Option<T> = None | Some(value: T)

  /** A handle on the participating medium. The medium's own type plays no
      part here, so only its identity is kept. */
  datatype MediumRef = MediumRef(id: nat)

  /** The origins and directions of the two offset rays, one step away in
      x and one in y on the image plane. */
  datatype RayDifferential = RayDifferential(
    rxOrigin: Point3f,
    ryOrigin: Point3f,
    rxDirection: Vector3f,
    ryDirection: Vector3f)

  /** The differential with each offset origin moved `s` times as far from
      `o`, and each offset direction `s` times as far from `d`. */
  function ScaledDifferential(o: Point3f, d: Vector3f, diff: RayDifferential, s: Float): (r: RayDifferential)
    ensures r.rxOrigin.Sub(o) == diff.rxOrigin.Sub(o).Scale(s)
    ensures r.ryOrigin.Sub(o) == diff.ryOrigin.Sub(o).Scale(s)
    ensures r.rxDirection.Sub(d) == diff.rxDirection.Sub(d).Scale(s)
    ensures r.ryDirection.Sub(d) == diff.ryDirection.Sub(d).Scale(s)
  {
    RayDifferential(
      o.AddVector(diff.rxOrigin.Sub(o).Scale(s)),
      o.AddVector(diff.ryOrigin.Sub(o).Scale(s)),
      d.Add(diff.rxDirection.Sub(d).Scale(s)),
      d.Add(diff.ryDirection.Sub(d).Scale(s)))
  }

  /** Scaling by 1 changes nothing, and scaling by 0 collapses both offset
      origins onto `o` and both offset directions onto `d`. */
  lemma ScaledDifferentialEnds(o: Point3f, d: Vector3f, diff: RayDifferential)
    ensures ScaledDifferential(o, d, diff, 1.0) == diff
    ensures ScaledDifferential(o, d, diff, 0.0) == RayDifferential(o, o, d, d)
  {
  }

  /** Scaling by `s` and then by `t` is scaling by `s * t`. */
  lemma {:induction false} ScaledDifferentialComposes(o: Point3f, d: Vector3f, diff: RayDifferential, s: Float, t: Float)
    ensures ScaledDifferential(o, d, ScaledDifferential(o, d, diff, s), t) == ScaledDifferential(o, d, diff, s * t)
  {
    var once := ScaledDifferential(o, d, diff, s);
    var twice := ScaledDifferential(o, d, once, t);
    var direct := ScaledDifferential(o, d, diff, s * t);
    ScaleTwice(diff.rxOrigin.Sub(o), s, t);
    ScaleTwice(diff.ryOrigin.Sub(o), s, t);
    ScaleTwice(diff.rxDirection.Sub(d), s, t);
    ScaleTwice(diff.ryDirection.Sub(d), s, t);
    Point3fDisplacement(o, twice.rxOrigin, Vector3f(0.0, 0.0, 0.0), 1.0);
    Point3fDisplacement(o, direct.rxOrigin, Vector3f(0.0, 0.0, 0.0), 1.0);
    Point3fDisplacement(o, twice.ryOrigin, Vector3f(0.0, 0.0, 0.0), 1.0);
    Point3fDisplacement(o, direct.ryOrigin, Vector3f(0.0, 0.0, 0.0), 1.0);
    assert twice.rxDirection == d.Add(twice.rxDirection.Sub(d));
    assert direct.rxDirection == d.Add(direct.rxDirection.Sub(d));
    assert twice.ryDirection == d.Add(twice.ryDirection.Sub(d));
    assert direct.ryDirection == d.Add(direct.ryDirection.Sub(d));
  }

  /** Scaling a vector twice scales it by the product. */
  lemma ScaleTwice(v: Vector3f, s: Float, t: Float)
    ensures v.Scale(s).Scale(t) == v.Scale(s * t)
  {
    assert (v.x * s) * t == v.x * (s * t);
    assert (v.y * s) * t == v.y * (s * t);
    assert (v.z * s) * t == v.z * (s * t);
  }

  class Ray {
    var o: Point3f
    var d: Vector3f
    /** A `Cell` in the renderer, so that intersection code can shorten a
        shared ray; nothing in this file writes it. */
    var tMax: Float
    var time: Float
    var medium: Option<MediumRef>
    var differential: Option<RayDifferential>

    constructor (o: Point3f, d: Vector3f, tMax: Float, time: Float, medium: Option<MediumRef>, differential: Option<RayDifferential>)
      ensures this.o == o && this.d == d && this.tMax == tMax && this.time == time
      ensures this.medium == medium && this.differential == differential
    {
      this.o := o;
      this.d := d;
      this.tMax := tMax;
      this.time := time;
      this.medium := medium;
      this.differential := differential;
    }

    /** The point at parameter `t` along the ray: `o` moved by `t` times `d`. */
    function Position(t: Float): (r: Point3f)
      reads this
      ensures r.Sub(o) == d.Scale(t)
      ensures t == 0.0 ==> r == o
    {
      o.AddVector(d.Scale(t))
    }

    /** `scale_differentials(s)`: with no differential, nothing happens;
        otherwise each offset origin and direction moves to `s` times its
        offset from the main ray. No other field changes. */
    method ScaleDifferentials(s: Float)
      modifies this
      ensures differential == (if old(differential).Some? then Some(ScaledDifferential(o, d, old(differential).value, s)) else None)
      ensures o == old(o) && d == old(d) && tMax == old(tMax) && time == old(time) && medium == old(medium)
    {
      if differential.Some? {
        var diff := differential.value;
        var rxOrigin := o.AddVector(diff.rxOrigin.Sub(o).Scale(s));
        var ryOrigin := o.AddVector(diff.ryOrigin.Sub(o).Scale(s));
        var rxDirection := d.Add(diff.rxDirection.Sub(d).Scale(s));
        var ryDirection := d.Add(diff.ryDirection.Sub(d).Scale(s));
        differential := Some(RayDifferential(rxOrigin, ryOrigin, rxDirection, ryDirection));
      }
    }
  }

  /** Positions along a ray are affine in the parameter: stepping by `t`
      then by `u` is stepping by `t + u`. */
  lemma PositionAffine(ray: Ray, t: Float, u: Float)
    ensures ray.Position(t).AddVector(ray.d.Scale(u)) == ray.Position(t + u)
  {
  }

  /** Two successive `scale_differentials` calls act as one call with the
      product of the factors, and the main ray never moves. */
  method ScaleDifferentialsTwice(ray: Ray, s: Float, t: Float)
    modifies ray
    ensures ray.differential == (if old(ray.differential).Some? then Some(ScaledDifferential(ray.o, ray.d, old(ray.differential).value, s * t)) else None)
    ensures ray.o == old(ray.o) && ray.d == old(ray.d)
  {
    ray.ScaleDifferentials(s);
    ray.ScaleDifferentials(t);
    if old(ray.differential).Some? {
      ScaledDifferentialComposes(ray.o, ray.d, old(ray.differential).value, s, t);
    }
  }
}
