/** `Sphere::intersect` (sphere.cpp): the ray/sphere test by the quadratic
    formula, keeping the nearer root and rejecting hits behind the origin. */
module Spheres {
  import opened Vectors
  import opened Records

  datatype Sphere = Sphere(center: Vec3, radius: real, material: Material)

  /** The point `ray.origin + ray.direction * t` lies on the sphere's surface. */
  ghost predicate OnSurface(s: Sphere, ray: Ray, t: real) {
    var p := Sub(PointAt(ray, t), s.center);
    Dot(p, p) == s.radius * s.radius
  }

  // ----- The quadratic `a t^2 + b t + c` of sphere.cpp ----------------------

  function Offset(s: Sphere, ray: Ray): Vec3 {
    Sub(ray.origin, s.center)
  }

  function QuadA(ray: Ray): real {
    Dot(ray.direction, ray.direction)
  }

  function QuadB(s: Sphere, ray: Ray): real {
    2.0 * Dot(Offset(s, ray), ray.direction)
  }

  function QuadC(s: Sphere, ray: Ray): real {
    Dot(Offset(s, ray), Offset(s, ray)) - s.radius * s.radius
  }

  function Discriminant(s: Sphere, ray: Ray): real {
    QuadB(s, ray) * QuadB(s, ray) - 4.0 * QuadA(ray) * QuadC(s, ray)
  }

  /** The nearer root `(-b - sqrt(discriminant)) / (2a)`. */
  function NearRoot(s: Sphere, ray: Ray, sqrt: real -> real): real
    requires ray.Valid()
  {
    (-QuadB(s, ray) - sqrt(Discriminant(s, ray))) / (2.0 * QuadA(ray))
  }

  /** `Sphere::intersect`. The source divides by `2a`, which is 2 for the
      unit direction of every `Ray`. A sphere of radius zero would hand
      `normalize()` the zero vector when the ray passes through its centre,
      so the radius must be non-zero. */
  function Intersect(s: Sphere, ray: Ray, sqrt: real -> real): (r: Option<Intersection>)
    requires IsSqrt(sqrt) && ray.Valid() && s.radius != 0.0
    ensures r.Some? ==> r.value.distance >= 0.0
    ensures r.Some? ==> r.value.position == PointAt(ray, r.value.distance)
    ensures r.Some? ==> Dot(r.value.normal, r.value.normal) == 1.0
    ensures r.Some? ==> r.value.material == s.material
  {
    if Discriminant(s, ray) < 0.0 then None
    else
      var distance := NearRoot(s, ray, sqrt);
      if distance < 0.0 then None
      else
        var hit := PointAt(ray, distance);
        NearRootOnSurface(s, ray, sqrt);
        OffCentre(s, ray, distance);
        var normal := Normalize(Sub(hit, s.center), sqrt);
        DotSelf(normal);
        Some(MakeIntersection(hit, normal, distance, s.material, sqrt))
  }

  // ----- Facts about the quadratic -----------------------------------------

  /** Completing the square. */
  lemma CompleteSquare(b: real, c: real, t: real)
    ensures 4.0 * (t * t + b * t + c) == (2.0 * t + b) * (2.0 * t + b) - (b * b - 4.0 * c)
  {
  }

  /** A monic quadratic with a non-negative discriminant has exactly the two
      roots of the quadratic formula. */
  lemma QuadraticRoots(b: real, c: real, sd: real, t: real)
    requires sd >= 0.0 && sd * sd == b * b - 4.0 * c
    ensures t * t + b * t + c == 0.0 <==> t == (-b - sd) / 2.0 || t == (-b + sd) / 2.0
  {
    var w := 2.0 * t + b;
    CompleteSquare(b, c, t);
    if t == (-b - sd) / 2.0 {
      assert w == -sd;
      assert w * w == sd * sd;
    } else if t == (-b + sd) / 2.0 {
      assert w == sd;
    } else if w >= 0.0 {
      if w * w == sd * sd { SquareRootUnique(w, sd); }
    } else {
      assert (-w) * (-w) == w * w;
      if w * w == sd * sd { SquareRootUnique(-w, sd); }
    }
  }

  /** The squared distance from the centre, minus the squared radius, is the
      quadratic `a t^2 + b t + c` of the source. */
  lemma SurfaceQuadratic(s: Sphere, ray: Ray, t: real)
    ensures var p := Sub(PointAt(ray, t), s.center);
      Dot(p, p) - s.radius * s.radius
        == QuadA(ray) * (t * t) + QuadB(s, ray) * t + QuadC(s, ray)
  {
    var o, d := Offset(s, ray), ray.direction;
    var p := Sub(PointAt(ray, t), s.center);
    assert p == Add(o, Scale(d, t));
    assert Dot(p, p) == Dot(o, o) + 2.0 * t * Dot(o, d) + (t * t) * Dot(d, d);
  }

  /** For a unit direction, the ray meets the surface exactly at the roots of
      the monic quadratic. */
  lemma OnSurfaceIffRoot(s: Sphere, ray: Ray, t: real)
    requires ray.Valid()
    ensures OnSurface(s, ray, t) <==> t * t + QuadB(s, ray) * t + QuadC(s, ray) == 0.0
  {
    SurfaceQuadratic(s, ray, t);
  }

  lemma NearRootOnSurface(s: Sphere, ray: Ray, sqrt: real -> real)
    requires IsSqrt(sqrt) && ray.Valid() && Discriminant(s, ray) >= 0.0
    ensures OnSurface(s, ray, NearRoot(s, ray, sqrt))
  {
    var t := NearRoot(s, ray, sqrt);
    SqrtFacts(sqrt, Discriminant(s, ray));
    QuadraticRoots(QuadB(s, ray), QuadC(s, ray), sqrt(Discriminant(s, ray)), t);
    OnSurfaceIffRoot(s, ray, t);
  }

  /** A point on the surface of a sphere of non-zero radius is not its centre. */
  lemma OffCentre(s: Sphere, ray: Ray, t: real)
    requires s.radius != 0.0 && OnSurface(s, ray, t)
    ensures Sub(PointAt(ray, t), s.center) != Zero()
  {
    var p := Sub(PointAt(ray, t), s.center);
    calc {
      Dot(p, p);
      s.radius * s.radius;
    > { SquarePositive(s.radius); }
      0.0;
    }
    NonZeroBySelfDot(p);
  }

  /** Without real roots there is no point on the surface. */
  lemma NegativeDiscriminantNoRoot(b: real, c: real, t: real)
    requires b * b - 4.0 * c < 0.0
    ensures t * t + b * t + c != 0.0
  {
    CompleteSquare(b, c, t);
    SquareNonNegative(2.0 * t + b);
  }

  // ----- What `Sphere::intersect` promises ---------------------------------

  /** A hit lies on the surface, and its normal is the outward unit vector
      from the centre through the hit point. */
  lemma IntersectSound(s: Sphere, ray: Ray, sqrt: real -> real)
    requires IsSqrt(sqrt) && ray.Valid() && s.radius != 0.0
    ensures var r := Intersect(s, ray, sqrt);
      r.Some? ==>
        OnSurface(s, ray, r.value.distance)
        && Sub(r.value.position, s.center) != Zero()
        && r.value.normal == Normalize(Sub(r.value.position, s.center), sqrt)
  {
    var r := Intersect(s, ray, sqrt);
    if r.Some? {
      NearRootOnSurface(s, ray, sqrt);
      OffCentre(s, ray, r.value.distance);
      NormalizeIdempotent(Sub(r.value.position, s.center), sqrt);
    }
  }

  /** A hit is the nearest point of the surface along the whole line. */
  lemma IntersectNearest(s: Sphere, ray: Ray, sqrt: real -> real, t: real)
    requires IsSqrt(sqrt) && ray.Valid() && s.radius != 0.0
    requires OnSurface(s, ray, t)
    ensures var r := Intersect(s, ray, sqrt);
      r.Some? ==> r.value.distance <= t
  {
    var r := Intersect(s, ray, sqrt);
    if r.Some? {
      var sd := sqrt(Discriminant(s, ray));
      SqrtFacts(sqrt, Discriminant(s, ray));
      OnSurfaceIffRoot(s, ray, t);
      QuadraticRoots(QuadB(s, ray), QuadC(s, ray), sd, t);
    }
  }

  /** There is a hit exactly when the line meets the surface and no point
      where it does lies behind the origin. In particular a ray starting
      inside the sphere, which meets the surface once behind it, misses. */
  lemma IntersectIff(s: Sphere, ray: Ray, sqrt: real -> real)
    requires IsSqrt(sqrt) && ray.Valid() && s.radius != 0.0
    ensures Intersect(s, ray, sqrt).Some?
        <==> (exists t :: OnSurface(s, ray, t))
             && (forall t :: OnSurface(s, ray, t) ==> t >= 0.0)
  {
    var r := Intersect(s, ray, sqrt);
    if r.Some? {
      IntersectSound(s, ray, sqrt);
      forall t | OnSurface(s, ray, t)
        ensures t >= 0.0
      {
        IntersectNearest(s, ray, sqrt, t);
      }
    } else if t0 :| OnSurface(s, ray, t0) {
      MissBehindOrigin(s, ray, sqrt, t0);
    }
  }

  /** When no hit is reported although the line meets the surface, the
      nearer meeting point lies behind the origin. */
  lemma MissBehindOrigin(s: Sphere, ray: Ray, sqrt: real -> real, t0: real)
    requires IsSqrt(sqrt) && ray.Valid() && s.radius != 0.0
    requires Intersect(s, ray, sqrt).None? && OnSurface(s, ray, t0)
    ensures Discriminant(s, ray) >= 0.0
    ensures OnSurface(s, ray, NearRoot(s, ray, sqrt)) && NearRoot(s, ray, sqrt) < 0.0
  {
    SurfaceMeetsDiscriminant(s, ray, t0);
    IntersectNoneCases(s, ray, sqrt);
    NearRootOnSurface(s, ray, sqrt);
  }

  /** A line that meets the surface has a non-negative discriminant. */
  lemma SurfaceMeetsDiscriminant(s: Sphere, ray: Ray, t: real)
    requires ray.Valid() && OnSurface(s, ray, t)
    ensures Discriminant(s, ray) >= 0.0
  {
    var b, c := QuadB(s, ray), QuadC(s, ray);
    OnSurfaceIffRoot(s, ray, t);
    assert QuadA(ray) == 1.0;
    if b * b - 4.0 * c < 0.0 {
      NegativeDiscriminantNoRoot(b, c, t);
      assert false;
    }
  }

  /** The two early returns are the only ways to miss. */
  lemma IntersectNoneCases(s: Sphere, ray: Ray, sqrt: real -> real)
    requires IsSqrt(sqrt) && ray.Valid() && s.radius != 0.0
    ensures Intersect(s, ray, sqrt).None?
        <==> Discriminant(s, ray) < 0.0 || NearRoot(s, ray, sqrt) < 0.0
  {
  }

  /** With a negative constant term the smaller root is negative. */
  lemma NearRootNegative(b: real, c: real, sd: real)
    requires c < 0.0 && sd >= 0.0 && sd * sd == b * b - 4.0 * c
    ensures (-b - sd) / 2.0 < 0.0
  {
    if sd <= -b {
      SquareMonotone(sd, -b);
    }
  }

  /** A ray whose origin is strictly inside the sphere never hits it. */
  lemma IntersectFromInside(s: Sphere, ray: Ray, sqrt: real -> real)
    requires IsSqrt(sqrt) && ray.Valid() && s.radius != 0.0
    requires Dot(Offset(s, ray), Offset(s, ray)) < s.radius * s.radius
    ensures Intersect(s, ray, sqrt).None?
  {
    var d := Discriminant(s, ray);
    if d >= 0.0 {
      SqrtFacts(sqrt, d);
      NearRootNegative(QuadB(s, ray), QuadC(s, ray), sqrt(d));
    }
  }

  // ----- Worked examples ---------------------------------------------------

  /** A ray from (0,0,-10) along +z passes far from a unit sphere around
      (100,100,100). */
  lemma IntersectMissExample(sqrt: real -> real)
    requires IsSqrt(sqrt)
    ensures var ray := Ray(Vec3(0.0, 0.0, -10.0), Vec3(0.0, 0.0, 1.0));
      Intersect(Sphere(Vec3(100.0, 100.0, 100.0), 1.0, White()), ray, sqrt).None?
  {
  }
}
