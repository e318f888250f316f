/** `Triangle::intersect` (triangle.cpp): the Möller–Trumbore ray/triangle
    test (Möller and Trumbore, "Fast, Minimum Storage Ray/Triangle
    Intersection", 1997), over exact reals. */
module Triangles {
  import opened Vectors
  import opened Records

  datatype Triangle = Triangle(v0: Vec3, v1: Vec3, v2: Vec3, material: Material)

  /** `std::numeric_limits<float>::epsilon()`, 2^-23. */
  const EPSILON: real := 1.0 / 8388608.0

  function Edge1(tri: Triangle): Vec3 { Sub(tri.v1, tri.v0) }
  function Edge2(tri: Triangle): Vec3 { Sub(tri.v2, tri.v0) }

  /** `h = dir x edge2`. */
  function H(tri: Triangle, ray: Ray): Vec3 { Cross(ray.direction, Edge2(tri)) }

  /** `a = edge1 . h`, the determinant of the system
      `origin + t dir = v0 + u edge1 + v edge2`. */
  function Det(tri: Triangle, ray: Ray): real {
    Dot(Edge1(tri), H(tri, ray))
  }

  /** `|a| < EPSILON`: the ray is taken as parallel to the triangle's plane. */
  predicate Parallel(tri: Triangle, ray: Ray) {
    Det(tri, ray) > -EPSILON && Det(tri, ray) < EPSILON
  }

  /** `s = origin - v0`. */
  function Offset(tri: Triangle, ray: Ray): Vec3 { Sub(ray.origin, tri.v0) }

  /** `q = s x edge1`. */
  function Q(tri: Triangle, ray: Ray): Vec3 { Cross(Offset(tri, ray), Edge1(tri)) }

  /** `f = 1 / a`. */
  function InvDet(tri: Triangle, ray: Ray): real
    requires Det(tri, ray) != 0.0
  {
    1.0 / Det(tri, ray)
  }

  /** `u = f * (s . h)`. */
  function BaryU(tri: Triangle, ray: Ray): real
    requires Det(tri, ray) != 0.0
  {
    InvDet(tri, ray) * Dot(Offset(tri, ray), H(tri, ray))
  }

  /** `v = f * (dir . q)`. */
  function BaryV(tri: Triangle, ray: Ray): real
    requires Det(tri, ray) != 0.0
  {
    InvDet(tri, ray) * Dot(ray.direction, Q(tri, ray))
  }

  /** `t = f * (edge2 . q)`. */
  function Distance(tri: Triangle, ray: Ray): real
    requires Det(tri, ray) != 0.0
  {
    InvDet(tri, ray) * Dot(Edge2(tri), Q(tri, ray))
  }

  /** The point `v0 + u edge1 + v edge2` of the triangle's plane. */
  function Barycentric(tri: Triangle, u: real, v: real): Vec3 {
    Add(tri.v0, Add(Scale(Edge1(tri), u), Scale(Edge2(tri), v)))
  }

  /** `(u, v)` are the coordinates of a point inside the triangle or on its border. */
  predicate InTriangle(u: real, v: real) {
    u >= 0.0 && v >= 0.0 && u + v <= 1.0
  }

  /** `Triangle::intersect`. The normal handed to the `Intersection`
      constructor is `edge1 x edge2`, which the constructor normalizes. */
  function Intersect(tri: Triangle, ray: Ray, sqrt: real -> real): (r: Option<Intersection>)
    requires IsSqrt(sqrt)
    ensures r.Some? ==> EPSILON < r.value.distance < 1.0 / EPSILON
    ensures r.Some? ==> r.value.position == PointAt(ray, r.value.distance)
    ensures r.Some? ==> Dot(r.value.normal, r.value.normal) == 1.0
    ensures r.Some? ==> r.value.material == tri.material
  {
    if Parallel(tri, ray) then None
    else
      var u := BaryU(tri, ray);
      if u < 0.0 || u > 1.0 then None
      else
        var v := BaryV(tri, ray);
        if v < 0.0 || u + v > 1.0 then None
        else
          var t := Distance(tri, ray);
          if t > EPSILON && t < 1.0 / EPSILON then
            NormalNonZero(tri, ray);
            Some(MakeIntersection(PointAt(ray, t), Cross(Edge1(tri), Edge2(tri)), t, tri.material, sqrt))
          else
            None
  }

  /** A ray that is not parallel to the plane proves the triangle is not
      degenerate: its edges are not collinear. */
  lemma NormalNonZero(tri: Triangle, ray: Ray)
    requires Det(tri, ray) != 0.0
    ensures Cross(Edge1(tri), Edge2(tri)) != Zero()
  {
    var e1, e2, d := Edge1(tri), Edge2(tri), ray.direction;
    TripleProductCyclic(e1, d, e2);
    CrossAntiCommutative(e2, e1);
    assert Dot(d, Cross(e2, e1)) != 0.0;
  }

  // ----- Cramer's rule -------------------------------------------------------

  /** Cramer's rule for the 3x3 system `s = u e1 + v e2 - t d`, one component
      at a time, multiplied out by the determinant `a = e1 . (d x e2)` so that
      no division is involved. */
  lemma CramerX(s: Vec3, d: Vec3, e1: Vec3, e2: Vec3, h: Vec3, q: Vec3)
    requires h == Cross(d, e2) && q == Cross(s, e1)
    ensures s.x * Dot(e1, h) == e1.x * Dot(s, h) + e2.x * Dot(d, q) - d.x * Dot(e2, q)
  {
  }

  lemma CramerY(s: Vec3, d: Vec3, e1: Vec3, e2: Vec3, h: Vec3, q: Vec3)
    requires h == Cross(d, e2) && q == Cross(s, e1)
    ensures s.y * Dot(e1, h) == e1.y * Dot(s, h) + e2.y * Dot(d, q) - d.y * Dot(e2, q)
  {
  }

  lemma CramerZ(s: Vec3, d: Vec3, e1: Vec3, e2: Vec3, h: Vec3, q: Vec3)
    requires h == Cross(d, e2) && q == Cross(s, e1)
    ensures s.z * Dot(e1, h) == e1.z * Dot(s, h) + e2.z * Dot(d, q) - d.z * Dot(e2, q)
  {
  }

  /** Cramer's rule for `s`, multiplied out: with `h = d x e2`, `q = s x e1`
      and the determinant `a = e1 . h`, `a s = (s . h) e1 + (d . q) e2 - (e2 . q) d`. */
  lemma CramerSolved(s: Vec3, d: Vec3, e1: Vec3, e2: Vec3, h: Vec3, q: Vec3)
    requires h == Cross(d, e2) && q == Cross(s, e1)
    ensures Scale(s, Dot(e1, h))
         == Sub(Add(Scale(e1, Dot(s, h)), Scale(e2, Dot(d, q))), Scale(d, Dot(e2, q)))
  {
    CramerX(s, d, e1, e2, h, q);
    CramerY(s, d, e1, e2, h, q);
    CramerZ(s, d, e1, e2, h, q);
    ComponentsEqual(Scale(s, Dot(e1, h)),
                    Sub(Add(Scale(e1, Dot(s, h)), Scale(e2, Dot(d, q))), Scale(d, Dot(e2, q))));
  }

  /** Dividing the multiplied-out system by the determinant `a`, that is
      multiplying it by `f` with `f a = 1`. */
  lemma ScaleBack(s: Vec3, d: Vec3, e1: Vec3, e2: Vec3, a: real, f: real, sh: real, dq: real, eq: real,
                  u: real, v: real, t: real)
    requires f * a == 1.0 && u == f * sh && v == f * dq && t == f * eq
    requires Scale(s, a) == Sub(Add(Scale(e1, sh), Scale(e2, dq)), Scale(d, eq))
    ensures s == Sub(Add(Scale(e1, u), Scale(e2, v)), Scale(d, t))
  {
    calc {
      s;
      { ScaleInverse(s, a, f); }
      Scale(Scale(s, a), f);
      Scale(Sub(Add(Scale(e1, sh), Scale(e2, dq)), Scale(d, eq)), f);
      { ScaleCombination(e1, e2, d, sh, dq, eq, f); }
      Sub(Add(Scale(e1, f * sh), Scale(e2, f * dq)), Scale(d, f * eq));
    }
  }

  /** Scaling by `a` and then by `f` with `f a = 1` is the identity. */
  lemma ScaleInverse(s: Vec3, a: real, f: real)
    requires f * a == 1.0
    ensures Scale(Scale(s, a), f) == s
  {
    assert s.x * a * f == s.x * (f * a);
    assert s.y * a * f == s.y * (f * a);
    assert s.z * a * f == s.z * (f * a);
  }

  /** A scalar distributes over the combination `u e1 + v e2 - t d`. */
  lemma ScaleCombination(e1: Vec3, e2: Vec3, d: Vec3, u: real, v: real, t: real, f: real)
    ensures Scale(Sub(Add(Scale(e1, u), Scale(e2, v)), Scale(d, t)), f)
         == Sub(Add(Scale(e1, f * u), Scale(e2, f * v)), Scale(d, f * t))
  {
    var a, b, c := Scale(e1, u), Scale(e2, v), Scale(d, t);
    calc {
      Scale(Sub(Add(a, b), c), f);
      { ScaleSubDistributes(Add(a, b), c, f); }
      Sub(Scale(Add(a, b), f), Scale(c, f));
      { ScaleAddVectors(a, b, f); }
      Sub(Add(Scale(a, f), Scale(b, f)), Scale(c, f));
      { ScaleScale(e1, u, f); ScaleScale(e2, v, f); ScaleScale(d, t, f); }
      Sub(Add(Scale(e1, f * u), Scale(e2, f * v)), Scale(d, f * t));
    }
  }

  /** Where `a` is non-zero, `s = u edge1 + v edge2 - t dir` for the computed
      `u`, `v` and `t`. */
  lemma OffsetSolved(tri: Triangle, ray: Ray)
    requires Det(tri, ray) != 0.0
    ensures Offset(tri, ray)
      == Sub(Add(Scale(Edge1(tri), BaryU(tri, ray)), Scale(Edge2(tri), BaryV(tri, ray))),
             Scale(ray.direction, Distance(tri, ray)))
  {
    CoordinatesAsDots(tri, ray);
    CramerSolved(Offset(tri, ray), ray.direction, Edge1(tri), Edge2(tri), H(tri, ray), Q(tri, ray));
    ScaleBack(Offset(tri, ray), ray.direction, Edge1(tri), Edge2(tri), Dot(Edge1(tri), H(tri, ray)),
              InvDet(tri, ray), Dot(Offset(tri, ray), H(tri, ray)), Dot(ray.direction, Q(tri, ray)),
              Dot(Edge2(tri), Q(tri, ray)), BaryU(tri, ray), BaryV(tri, ray), Distance(tri, ray));
  }

  /** The algorithm's `u`, `v` and `t` are `f (s . h)`, `f (dir . q)` and
      `f (edge2 . q)` with `f a = 1`. */
  lemma CoordinatesAsDots(tri: Triangle, ray: Ray)
    requires Det(tri, ray) != 0.0
    ensures InvDet(tri, ray) * Dot(Edge1(tri), H(tri, ray)) == 1.0
    ensures BaryU(tri, ray) == InvDet(tri, ray) * Dot(Offset(tri, ray), H(tri, ray))
    ensures BaryV(tri, ray) == InvDet(tri, ray) * Dot(ray.direction, Q(tri, ray))
    ensures Distance(tri, ray) == InvDet(tri, ray) * Dot(Edge2(tri), Q(tri, ray))
  {
  }

  /** If `origin - v0 = u e1 + v e2 - t d` then `origin + t d = v0 + u e1 + v e2`. */
  lemma MoveAcross(o: Vec3, v0: Vec3, d: Vec3, e1: Vec3, e2: Vec3, u: real, v: real, t: real)
    requires Sub(o, v0) == Sub(Add(Scale(e1, u), Scale(e2, v)), Scale(d, t))
    ensures Add(o, Scale(d, t)) == Add(v0, Add(Scale(e1, u), Scale(e2, v)))
  {
  }

  /** Where `a` is non-zero, `origin + t dir` is the point `(u, v)` of the plane. */
  lemma PointAtDistance(tri: Triangle, ray: Ray)
    requires Det(tri, ray) != 0.0
    ensures PointAt(ray, Distance(tri, ray)) == Barycentric(tri, BaryU(tri, ray), BaryV(tri, ray))
  {
    OffsetSolved(tri, ray);
    MoveAcross(ray.origin, tri.v0, ray.direction, Edge1(tri), Edge2(tri),
               BaryU(tri, ray), BaryV(tri, ray), Distance(tri, ray));
  }

  // ----- What `Triangle::intersect` promises --------------------------------

  /** A hit is a point of the triangle: it lies at `(u, v)` of the plane
      with `u, v >= 0` and `u + v <= 1`, at the distance `t` computed by the
      algorithm. */
  lemma IntersectInTriangle(tri: Triangle, ray: Ray, sqrt: real -> real)
    requires IsSqrt(sqrt)
    ensures var r := Intersect(tri, ray, sqrt);
      r.Some? ==>
        !Parallel(tri, ray)
        && InTriangle(BaryU(tri, ray), BaryV(tri, ray))
        && r.value.distance == Distance(tri, ray)
        && r.value.position == Barycentric(tri, BaryU(tri, ray), BaryV(tri, ray))
  {
    if Intersect(tri, ray, sqrt).Some? {
      PointAtDistance(tri, ray);
    }
  }

  /** The rejections of the source, one per early return: a ray parallel to
      the plane, `u` outside [0, 1], `v < 0` or `u + v > 1`, and `t` outside
      (EPSILON, 1/EPSILON). */
  lemma IntersectRejects(tri: Triangle, ray: Ray, sqrt: real -> real)
    requires IsSqrt(sqrt)
    ensures Parallel(tri, ray) ==> Intersect(tri, ray, sqrt).None?
    ensures !Parallel(tri, ray) && (BaryU(tri, ray) < 0.0 || BaryU(tri, ray) > 1.0)
        ==> Intersect(tri, ray, sqrt).None?
    ensures !Parallel(tri, ray) && (BaryV(tri, ray) < 0.0 || BaryU(tri, ray) + BaryV(tri, ray) > 1.0)
        ==> Intersect(tri, ray, sqrt).None?
    ensures !Parallel(tri, ray) && !(EPSILON < Distance(tri, ray) < 1.0 / EPSILON)
        ==> Intersect(tri, ray, sqrt).None?
  {
  }

  /** The normal of a hit is the unit normal `edge1 x edge2` of the
      triangle's plane: orthogonal to both edges and the same for every ray. */
  lemma IntersectNormal(tri: Triangle, ray: Ray, sqrt: real -> real)
    requires IsSqrt(sqrt)
    ensures var r := Intersect(tri, ray, sqrt);
      r.Some? ==>
        Cross(Edge1(tri), Edge2(tri)) != Zero()
        && r.value.normal == Normalize(Cross(Edge1(tri), Edge2(tri)), sqrt)
        && Dot(r.value.normal, Edge1(tri)) == 0.0
        && Dot(r.value.normal, Edge2(tri)) == 0.0
  {
    var r := Intersect(tri, ray, sqrt);
    if r.Some? {
      var c := Cross(Edge1(tri), Edge2(tri));
      NormalNonZero(tri, ray);
      NormalizeIdempotent(c, sqrt);
      var len := Length(c, sqrt);
      LengthZero(c, sqrt);
      DivIsScaleByInverse(c, len);
      CrossOrthogonal(Edge1(tri), Edge2(tri));
      DotScale(c, Edge1(tri), 1.0 / len);
      DotScale(c, Edge2(tri), 1.0 / len);
    }
  }

  // ----- Completeness ----------------------------------------------------------

  /** Dot distributes over a combination `u e1 + v e2 - t d`. */
  lemma DotCombination(e1: Vec3, e2: Vec3, d: Vec3, u: real, v: real, t: real, w: Vec3)
    ensures Dot(Sub(Add(Scale(e1, u), Scale(e2, v)), Scale(d, t)), w)
        == u * Dot(e1, w) + v * Dot(e2, w) - t * Dot(d, w)
  {
  }

  /** Cross with `e1` distributes over `u e1 + v e2 - t d`, and `e1 x e1` vanishes. */
  lemma CrossCombination(e1: Vec3, e2: Vec3, d: Vec3, u: real, v: real, t: real)
    ensures Cross(Sub(Add(Scale(e1, u), Scale(e2, v)), Scale(d, t)), e1)
        == Sub(Scale(Cross(e2, e1), v), Scale(Cross(d, e1), t))
  {
    var a, b, c := Scale(e1, u), Scale(e2, v), Scale(d, t);
    calc {
      Cross(Sub(Add(a, b), c), e1);
      { CrossLinear(Add(a, b), c, e1); }
      Sub(Cross(Add(a, b), e1), Cross(c, e1));
      { CrossLinear(a, b, e1); }
      Sub(Add(Cross(a, e1), Cross(b, e1)), Cross(c, e1));
      { CrossScale(e1, u, e1); CrossScale(e2, v, e1); CrossScale(d, t, e1); }
      Sub(Add(Scale(Cross(e1, e1), u), Scale(Cross(e2, e1), v)), Scale(Cross(d, e1), t));
      { assert Scale(Cross(e1, e1), u) == Zero(); ZeroIdentity(Scale(Cross(e2, e1), v)); }
      Sub(Scale(Cross(e2, e1), v), Scale(Cross(d, e1), t));
    }
  }

  /** Cross is additive in its first operand. */
  lemma CrossLinear(a: Vec3, b: Vec3, c: Vec3)
    ensures Cross(Add(a, b), c) == Add(Cross(a, c), Cross(b, c))
    ensures Cross(Sub(a, b), c) == Sub(Cross(a, c), Cross(b, c))
  {
    ComponentsEqual(Cross(Add(a, b), c), Add(Cross(a, c), Cross(b, c)));
    ComponentsEqual(Cross(Sub(a, b), c), Sub(Cross(a, c), Cross(b, c)));
  }

  /** Cross is homogeneous in its first operand. */
  lemma CrossScale(a: Vec3, k: real, c: Vec3)
    ensures Cross(Scale(a, k), c) == Scale(Cross(a, c), k)
  {
    var l, r := Cross(Scale(a, k), c), Scale(Cross(a, c), k);
    assert l.x == r.x by { MinorScale(a.y, c.z, a.z, c.y, k); }
    assert l.y == r.y by { MinorScale(a.z, c.x, a.x, c.z, k); }
    assert l.z == r.z by { MinorScale(a.x, c.y, a.y, c.x, k); }
    ComponentsEqual(l, r);
  }

  lemma MinorScale(p: real, q: real, r: real, s: real, k: real)
    ensures (p * k) * q - (r * k) * s == (p * q - r * s) * k
  {
  }

  /** Swapping the outer operands of a triple product changes its sign. */
  lemma TripleProductSwap(a: Vec3, b: Vec3, c: Vec3)
    ensures Dot(c, Cross(b, a)) == -Dot(a, Cross(b, c))
  {
  }

  /** Where `a` is non-zero the algorithm recovers the coordinates of every
      point of the plane on the ray: `u`, `v` and `t` are unique. */
  lemma CoordinatesRecovered(tri: Triangle, ray: Ray, u: real, v: real, t: real)
    requires Det(tri, ray) != 0.0
    requires PointAt(ray, t) == Barycentric(tri, u, v)
    ensures BaryU(tri, ray) == u && BaryV(tri, ray) == v && Distance(tri, ray) == t
  {
    MoveBack(ray.origin, tri.v0, ray.direction, Edge1(tri), Edge2(tri), u, v, t);
    CoordinatesOfCombination(Offset(tri, ray), ray.direction, Edge1(tri), Edge2(tri),
                             H(tri, ray), Q(tri, ray), InvDet(tri, ray), u, v, t);
  }

  /** The algorithm's coordinates of `s = u e1 + v e2 - t d` are `u`, `v`
      and `t`. */
  lemma CoordinatesOfCombination(s: Vec3, d: Vec3, e1: Vec3, e2: Vec3, h: Vec3, q: Vec3, f: real,
                                 u: real, v: real, t: real)
    requires h == Cross(d, e2) && q == Cross(s, e1) && f * Dot(e1, h) == 1.0
    requires s == Sub(Add(Scale(e1, u), Scale(e2, v)), Scale(d, t))
    ensures f * Dot(s, h) == u && f * Dot(d, q) == v && f * Dot(e2, q) == t
  {
    var a := Dot(e1, h);
    CombinationCoordinates(s, d, e1, e2, u, v, t);
    CancelDeterminant(a, f, u);
    CancelDeterminant(a, f, v);
    CancelDeterminant(a, f, t);
  }

  /** If `origin + t d = v0 + u e1 + v e2` then `origin - v0 = u e1 + v e2 - t d`. */
  lemma MoveBack(o: Vec3, v0: Vec3, d: Vec3, e1: Vec3, e2: Vec3, u: real, v: real, t: real)
    requires Add(o, Scale(d, t)) == Add(v0, Add(Scale(e1, u), Scale(e2, v)))
    ensures Sub(o, v0) == Sub(Add(Scale(e1, u), Scale(e2, v)), Scale(d, t))
  {
    ComponentsEqual(Sub(o, v0), Sub(Add(Scale(e1, u), Scale(e2, v)), Scale(d, t)));
  }

  /** The triple products the algorithm forms from `s = u e1 + v e2 - t d`
      are `u a`, `v a` and `t a`, where `a = e1 . (d x e2)`. */
  lemma CombinationCoordinates(s: Vec3, d: Vec3, e1: Vec3, e2: Vec3, u: real, v: real, t: real)
    requires s == Sub(Add(Scale(e1, u), Scale(e2, v)), Scale(d, t))
    ensures var a, h, q := Dot(e1, Cross(d, e2)), Cross(d, e2), Cross(s, e1);
      Dot(s, h) == u * a && Dot(d, q) == v * a && Dot(e2, q) == t * a
  {
    CombinationU(e1, e2, d, u, v, t);
    CrossCombination(e1, e2, d, u, v, t);
    CombinationVT(e1, e2, d, v, t);
  }

  /** `(u e1 + v e2 - t d) . (d x e2) = u a`. */
  lemma CombinationU(e1: Vec3, e2: Vec3, d: Vec3, u: real, v: real, t: real)
    ensures var h := Cross(d, e2);
      Dot(Sub(Add(Scale(e1, u), Scale(e2, v)), Scale(d, t)), h) == u * Dot(e1, h)
  {
    var h := Cross(d, e2);
    DotCombination(e1, e2, d, u, v, t, h);
    CrossOrthogonal(d, e2);
    DotSymmetric(e2, h);
    DotSymmetric(d, h);
  }

  /** With `q = v (e2 x e1) - t (d x e1)`, `d . q = v a` and `e2 . q = t a`. */
  lemma CombinationVT(e1: Vec3, e2: Vec3, d: Vec3, v: real, t: real)
    ensures var a, q := Dot(e1, Cross(d, e2)), Sub(Scale(Cross(e2, e1), v), Scale(Cross(d, e1), t));
      Dot(d, q) == v * a && Dot(e2, q) == t * a
  {
    var c21, cd1 := Cross(e2, e1), Cross(d, e1);
    var a := Dot(e1, Cross(d, e2));
    assert Dot(d, Sub(Scale(c21, v), Scale(cd1, t))) == v * a by {
      DotCombination(c21, cd1, Zero(), v, -t, 0.0, d);
      TripleProductCyclic(e1, d, e2);
      CrossOrthogonal(d, e1);
      DotSymmetric(d, cd1);
    }
    assert Dot(e2, Sub(Scale(c21, v), Scale(cd1, t))) == t * a by {
      DotCombination(c21, cd1, Zero(), v, -t, 0.0, e2);
      CrossOrthogonal(e2, e1);
      DotSymmetric(e2, c21);
      TripleProductSwap(e1, d, e2);
    }
  }

  lemma CancelDeterminant(a: real, f: real, x: real)
    requires f * a == 1.0
    ensures f * (x * a) == x
  {
    assert f * (x * a) == x * (f * a);
  }

  /** When every test of the algorithm passes, it reports a hit at `t`. */
  lemma IntersectAccepts(tri: Triangle, ray: Ray, sqrt: real -> real)
    requires IsSqrt(sqrt) && !Parallel(tri, ray)
    requires InTriangle(BaryU(tri, ray), BaryV(tri, ray))
    requires EPSILON < Distance(tri, ray) < 1.0 / EPSILON
    ensures Intersect(tri, ray, sqrt).Some?
    ensures Intersect(tri, ray, sqrt).value.distance == Distance(tri, ray)
  {
  }

  /** Every point strictly inside the distance bounds where the ray meets the
      triangle is found, at its distance, provided the ray is not taken as
      parallel (`|a| >= EPSILON`). */
  lemma IntersectComplete(tri: Triangle, ray: Ray, sqrt: real -> real, u: real, v: real, t: real)
    requires IsSqrt(sqrt)
    requires !Parallel(tri, ray)
    requires InTriangle(u, v) && EPSILON < t < 1.0 / EPSILON
    requires PointAt(ray, t) == Barycentric(tri, u, v)
    ensures Intersect(tri, ray, sqrt).Some?
    ensures Intersect(tri, ray, sqrt).value.distance == t
  {
    CoordinatesRecovered(tri, ray, u, v, t);
  }

  // ----- Examples ------------------------------------------------------------

  /** The unit right triangle (0,0,0), (1,0,0), (0,1,0) in the plane z = 0. */
  predicate UnitRightTriangle(tri: Triangle) {
    tri.v0.x == 0.0 && tri.v0.y == 0.0 && tri.v0.z == 0.0
    && tri.v1.x == 1.0 && tri.v1.y == 0.0 && tri.v1.z == 0.0
    && tri.v2.x == 0.0 && tri.v2.y == 1.0 && tri.v2.z == 0.0
  }

  /** A ray along +z starting one unit below the plane at `(px, py)`. */
  predicate UpwardRay(ray: Ray, px: real, py: real) {
    ray.origin.x == px && ray.origin.y == py && ray.origin.z == -1.0
    && ray.direction.x == 0.0 && ray.direction.y == 0.0 && ray.direction.z == 1.0
  }

  /** For the ray from `(px, py, -1)` along +z, `h = (-1, 0, 0)` and `a = -1`. */
  lemma UpwardRayDet(tri: Triangle, ray: Ray, px: real, py: real)
    requires UnitRightTriangle(tri) && UpwardRay(ray, px, py)
    ensures Det(tri, ray) == -1.0 && !Parallel(tri, ray)
    ensures H(tri, ray).x == -1.0 && H(tri, ray).y == 0.0 && H(tri, ray).z == 0.0
  {
  }

  /** For the same ray, `s = (px, py, -1)` and `q = (0, -1, -py)`, so that
      `u = px`, `v = py` and `t = 1`. */
  lemma UpwardRayCoordinates(tri: Triangle, ray: Ray, px: real, py: real)
    requires UnitRightTriangle(tri) && UpwardRay(ray, px, py)
    ensures Det(tri, ray) == -1.0 && !Parallel(tri, ray)
    ensures BaryU(tri, ray) == px && BaryV(tri, ray) == py && Distance(tri, ray) == 1.0
  {
    UpwardRayDet(tri, ray, px, py);
  }

  /** The ray from (0.25, 0.25, -1) along +z hits the unit right triangle at
      distance 1, where `u = v = 1/4`. */
  lemma IntersectHitExample(tri: Triangle, ray: Ray, sqrt: real -> real)
    requires IsSqrt(sqrt) && UnitRightTriangle(tri) && UpwardRay(ray, 0.25, 0.25)
    ensures Intersect(tri, ray, sqrt).Some?
    ensures Intersect(tri, ray, sqrt).value.distance == 1.0
  {
    UpwardRayCoordinates(tri, ray, 0.25, 0.25);
    IntersectAccepts(tri, ray, sqrt);
  }

  /** The ray from (2, 2, -1) along +z misses it: there `u = 2`. */
  lemma IntersectMissExample(tri: Triangle, ray: Ray, sqrt: real -> real)
    requires IsSqrt(sqrt) && UnitRightTriangle(tri) && UpwardRay(ray, 2.0, 2.0)
    ensures Intersect(tri, ray, sqrt).None?
  {
    UpwardRayCoordinates(tri, ray, 2.0, 2.0);
    IntersectRejects(tri, ray, sqrt);
  }
}
