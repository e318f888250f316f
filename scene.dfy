/** The scene (scene.cpp): a camera, a list of shapes and a light that is
    itself a shape, with the two ray queries the renderer asks of it. */
module Scenes {
  import opened Vectors
  import opened Records
  import opened Shapes
  import Spheres
  import Triangles

  predicate AllWellFormed(shapes: seq<Shape>) {
    forall i :: 0 <= i < |shapes| ==> WellFormed(shapes[i])
  }

  /** The hits of `shapes` in list order, as the collecting loops build them. */
  function Hits(shapes: seq<Shape>, ray: Ray, sqrt: real -> real): seq<Intersection>
    requires IsSqrt(sqrt) && ray.Valid() && AllWellFormed(shapes)
    decreases |shapes|
  {
    if |shapes| == 0 then []
    else
      var prev := Hits(shapes[..|shapes| - 1], ray, sqrt);
      match Intersect(shapes[|shapes| - 1], ray, sqrt)
      case Some(x) => prev + [x]
      case None => prev
  }

  /** One step of a minimum scan: the new candidate replaces the one kept so
      far only when it is strictly nearer, so ties keep the earlier one. */
  function Closer(best: Option<Intersection>, next: Option<Intersection>): Option<Intersection> {
    match (best, next)
    case (None, _) => next
    case (Some(b), None) => best
    case (Some(b), Some(n)) => if n.distance < b.distance then next else best
  }

  /** `std::min_element` over a list of hits ordered by distance. */
  function MinHit(xs: seq<Intersection>): Option<Intersection>
    decreases |xs|
  {
    if |xs| == 0 then None else Closer(MinHit(xs[..|xs| - 1]), Some(xs[|xs| - 1]))
  }

  /** The reference definition of the first intersection: the scan of
      `Closer` over the shapes' own hits. */
  function Nearest(shapes: seq<Shape>, ray: Ray, sqrt: real -> real): Option<Intersection>
    requires IsSqrt(sqrt) && ray.Valid() && AllWellFormed(shapes)
    decreases |shapes|
  {
    if |shapes| == 0 then None
    else Closer(Nearest(shapes[..|shapes| - 1], ray, sqrt), Intersect(shapes[|shapes| - 1], ray, sqrt))
  }

  /** Collecting the hits and then taking the first minimum is the same as
      scanning the shapes directly. */
  lemma {:induction false} NearestIsMinHit(shapes: seq<Shape>, ray: Ray, sqrt: real -> real)
    requires IsSqrt(sqrt) && ray.Valid() && AllWellFormed(shapes)
    ensures Nearest(shapes, ray, sqrt) == MinHit(Hits(shapes, ray, sqrt))
    decreases |shapes|
  {
    if |shapes| > 0 {
      var p := shapes[..|shapes| - 1];
      NearestIsMinHit(p, ray, sqrt);
      var hs := Hits(p, ray, sqrt);
      match Intersect(shapes[|shapes| - 1], ray, sqrt)
      case None =>
      case Some(x) =>
        assert (hs + [x])[..|hs|] == hs;
    }
  }

  /** A scan finds nothing exactly when no shape is hit. */
  lemma {:induction false} NearestNoneIff(shapes: seq<Shape>, ray: Ray, sqrt: real -> real)
    requires IsSqrt(sqrt) && ray.Valid() && AllWellFormed(shapes)
    ensures Nearest(shapes, ray, sqrt).None? <==>
      forall i :: 0 <= i < |shapes| ==> Intersect(shapes[i], ray, sqrt).None?
    decreases |shapes|
  {
    if |shapes| > 0 {
      var p := shapes[..|shapes| - 1];
      NearestNoneIff(p, ray, sqrt);
      assert forall i :: 0 <= i < |p| ==> p[i] == shapes[i];
    }
  }

  /** The hit found belongs to some shape, is no farther than any hit of any
      shape, and every earlier shape is strictly farther: ties go to the
      earliest shape in the list. */
  lemma {:induction false} NearestIsFirstMinimum(shapes: seq<Shape>, ray: Ray, sqrt: real -> real)
    requires IsSqrt(sqrt) && ray.Valid() && AllWellFormed(shapes)
    requires Nearest(shapes, ray, sqrt).Some?
    ensures var x := Nearest(shapes, ray, sqrt).value;
      exists k :: 0 <= k < |shapes| && Intersect(shapes[k], ray, sqrt) == Some(x) &&
        (forall j :: 0 <= j < k && Intersect(shapes[j], ray, sqrt).Some? ==>
          Intersect(shapes[j], ray, sqrt).value.distance > x.distance)
    ensures var x := Nearest(shapes, ray, sqrt).value;
      forall i :: 0 <= i < |shapes| && Intersect(shapes[i], ray, sqrt).Some? ==>
        x.distance <= Intersect(shapes[i], ray, sqrt).value.distance
    decreases |shapes|
  {
    var n := |shapes| - 1;
    var p := shapes[..n];
    var x := Nearest(shapes, ray, sqrt).value;
    var last := Intersect(shapes[n], ray, sqrt);
    assert forall i :: 0 <= i < n ==> p[i] == shapes[i];
    var prev := Nearest(p, ray, sqrt);
    if prev.None? {
      NearestNoneIff(p, ray, sqrt);
      assert last == Some(x);
      assert Intersect(shapes[n], ray, sqrt) == Some(x);
    } else {
      NearestIsFirstMinimum(p, ray, sqrt);
      var b := prev.value;
      var k :| 0 <= k < n && Intersect(p[k], ray, sqrt) == Some(b) &&
        (forall j :: 0 <= j < k && Intersect(p[j], ray, sqrt).Some? ==>
          Intersect(p[j], ray, sqrt).value.distance > b.distance);
      if last.Some? && last.value.distance < b.distance {
        assert x == last.value;
        assert Intersect(shapes[n], ray, sqrt) == Some(x);
      } else {
        assert x == b;
        assert Intersect(shapes[k], ray, sqrt) == Some(x);
      }
    }
  }

  /** A light hit that every object hit lies strictly behind is what the
      first-intersection query returns. */
  lemma VisibleLightIsNearest(objects: seq<Shape>, light: Shape, ray: Ray, sqrt: real -> real)
    requires IsSqrt(sqrt) && ray.Valid() && AllWellFormed(objects) && WellFormed(light)
    requires Intersect(light, ray, sqrt).Some?
    requires forall i :: 0 <= i < |objects| && Intersect(objects[i], ray, sqrt).Some? ==>
      Intersect(objects[i], ray, sqrt).value.distance > Intersect(light, ray, sqrt).value.distance
    ensures AllWellFormed(objects + [light])
    ensures Nearest(objects + [light], ray, sqrt) == Intersect(light, ray, sqrt)
  {
    var all := objects + [light];
    assert all[..|objects|] == objects;
    var prev := Nearest(objects, ray, sqrt);
    if prev.Some? {
      NearestIsFirstMinimum(objects, ray, sqrt);
    }
  }

  /** The parallelogram spanned by `dir1` and `dir2` at `origin`, as the two
      triangles of `createRectangleSurface`. */
  function RectangleTriangles(origin: Vec3, dir1: Vec3, dir2: Vec3, material: Material): seq<Shape> {
    [ TriangleShape(Triangles.Triangle(origin, Add(origin, dir1), Add(origin, dir2), material)),
      TriangleShape(Triangles.Triangle(Add(origin, dir1), Add(Add(origin, dir1), dir2), Add(origin, dir2), material)) ]
  }

  /** `createRectangleSurface`: builds the list by pushing the two triangles. */
  method CreateRectangleSurface(origin: Vec3, dir1: Vec3, dir2: Vec3, material: Material)
    returns (tris: seq<Shape>)
    ensures tris == RectangleTriangles(origin, dir1, dir2, material)
  {
    var v1 := origin;
    var v2 := Add(origin, dir1);
    var v3 := Add(origin, dir2);
    var v4 := Add(Add(origin, dir1), dir2);
    tris := [];
    tris := tris + [TriangleShape(Triangles.Triangle(v1, v2, v3, material))];
    tris := tris + [TriangleShape(Triangles.Triangle(v2, v4, v3, material))];
  }

  /** The point of the parallelogram at coordinates `(a, b)`. */
  function RectanglePoint(origin: Vec3, dir1: Vec3, dir2: Vec3, a: real, b: real): Vec3 {
    Add(origin, Add(Scale(dir1, a), Scale(dir2, b)))
  }

  /** The first triangle's plane coordinates are the parallelogram's own. */
  lemma FirstTrianglePoint(origin: Vec3, dir1: Vec3, dir2: Vec3, material: Material, u: real, v: real)
    ensures Triangles.Barycentric(RectangleTriangles(origin, dir1, dir2, material)[0].triangle, u, v)
      == RectanglePoint(origin, dir1, dir2, u, v)
  {
    var t := RectangleTriangles(origin, dir1, dir2, material)[0].triangle;
    assert Triangles.Edge1(t) == dir1 && Triangles.Edge2(t) == dir2 by {
      ComponentsEqual(Triangles.Edge1(t), dir1);
      ComponentsEqual(Triangles.Edge2(t), dir2);
    }
  }

  /** The second triangle's point `(u, v)` is the parallelogram's point
      `(1 - v, u + v)`. */
  lemma SecondTrianglePoint(origin: Vec3, dir1: Vec3, dir2: Vec3, material: Material, u: real, v: real)
    ensures Triangles.Barycentric(RectangleTriangles(origin, dir1, dir2, material)[1].triangle, u, v)
      == RectanglePoint(origin, dir1, dir2, 1.0 - v, u + v)
  {
    var t := RectangleTriangles(origin, dir1, dir2, material)[1].triangle;
    var e1, e2 := Triangles.Edge1(t), Triangles.Edge2(t);
    assert e1 == dir2 by { ComponentsEqual(e1, dir2); }
    assert e2 == Sub(dir2, dir1) by { ComponentsEqual(e2, Sub(dir2, dir1)); }
    ShiftedPoint(origin, dir1, dir2, u, v);
  }

  /** `(o + d1) + u d2 + v (d2 - d1)` is `o + (1 - v) d1 + (u + v) d2`. */
  lemma ShiftedPoint(o: Vec3, d1: Vec3, d2: Vec3, u: real, v: real)
    ensures Add(Add(o, d1), Add(Scale(d2, u), Scale(Sub(d2, d1), v)))
      == Add(o, Add(Scale(d1, 1.0 - v), Scale(d2, u + v)))
  {
    var a, b, c := Scale(d2, u), Scale(d2, v), Scale(d1, v);
    assert Scale(Sub(d2, d1), v) == Sub(b, c) by { ScaleSubDistributes(d2, d1, v); }
    assert Scale(d2, u + v) == Add(a, b) by { ScaleAddDistributes(d2, u, v); }
    assert Scale(d1, 1.0 - v) == Sub(d1, c) by { ScaleComplement(d1, v); }
    Regroup(o, d1, a, b, c);
  }

  lemma ScaleAddDistributes(p: Vec3, k: real, l: real)
    ensures Scale(p, k + l) == Add(Scale(p, k), Scale(p, l))
  {
    ComponentsEqual(Scale(p, k + l), Add(Scale(p, k), Scale(p, l)));
  }

  lemma ScaleComplement(p: Vec3, k: real)
    ensures Scale(p, 1.0 - k) == Sub(p, Scale(p, k))
  {
    ComponentsEqual(Scale(p, 1.0 - k), Sub(p, Scale(p, k)));
  }

  lemma Regroup(o: Vec3, d: Vec3, a: Vec3, b: Vec3, c: Vec3)
    ensures Add(Add(o, d), Add(a, Sub(b, c))) == Add(o, Add(Sub(d, c), Add(a, b)))
  {
    ComponentsEqual(Add(Add(o, d), Add(a, Sub(b, c))), Add(o, Add(Sub(d, c), Add(a, b))));
  }

  /** Every point of the parallelogram lies in one of its two triangles: in
      the first at plane coordinates `(a, b)` when `a + b <= 1`, otherwise in
      the second at `(a + b - 1, 1 - a)`. */
  lemma RectangleCovered(origin: Vec3, dir1: Vec3, dir2: Vec3, material: Material, a: real, b: real)
    requires 0.0 <= a <= 1.0 && 0.0 <= b <= 1.0
    ensures var ts := RectangleTriangles(origin, dir1, dir2, material);
      var p := RectanglePoint(origin, dir1, dir2, a, b);
      if a + b <= 1.0 then
        Triangles.InTriangle(a, b) && Triangles.Barycentric(ts[0].triangle, a, b) == p
      else
        Triangles.InTriangle(a + b - 1.0, 1.0 - a) && Triangles.Barycentric(ts[1].triangle, a + b - 1.0, 1.0 - a) == p
  {
    if a + b <= 1.0 {
      FirstTrianglePoint(origin, dir1, dir2, material, a, b);
    } else {
      SecondTrianglePoint(origin, dir1, dir2, material, a + b - 1.0, 1.0 - a);
      assert 1.0 - (1.0 - a) == a && (a + b - 1.0) + (1.0 - a) == b;
    }
  }

  /** Conversely, every point of either triangle lies in the parallelogram. */
  lemma RectangleContainsTriangles(origin: Vec3, dir1: Vec3, dir2: Vec3, material: Material, u: real, v: real)
    requires Triangles.InTriangle(u, v)
    ensures var ts := RectangleTriangles(origin, dir1, dir2, material);
      Triangles.Barycentric(ts[0].triangle, u, v) == RectanglePoint(origin, dir1, dir2, u, v) &&
      Triangles.Barycentric(ts[1].triangle, u, v) == RectanglePoint(origin, dir1, dir2, 1.0 - v, u + v) &&
      0.0 <= u <= 1.0 && 0.0 <= v <= 1.0 && 0.0 <= 1.0 - v <= 1.0 && 0.0 <= u + v <= 1.0
  {
    FirstTrianglePoint(origin, dir1, dir2, material, u, v);
    SecondTrianglePoint(origin, dir1, dir2, material, u, v);
  }

  /** The room of `initialize`: four spheres, then floor, ceiling, left,
      right, front and back walls as two triangles each. */
  function SceneSpheres(): seq<Shape> {
    [ SphereShape(Spheres.Sphere(Vec3(5.0, -3.0, 50.0), 5.0, SetReflectingPercent(Red(), 0.1))),
      SphereShape(Spheres.Sphere(Vec3(-5.0, 5.0, 30.0), 5.0, SetReflectingPercent(Green(), 0.2))),
      SphereShape(Spheres.Sphere(Vec3(15.0, 15.0, 60.0), 5.0, SetReflectingPercent(Blue(), 1.0))),
      SphereShape(Spheres.Sphere(Vec3(-15.0, -15.0, 60.0), 5.0, Pink())) ]
  }

  function LightShape(): Shape {
    SphereShape(Spheres.Sphere(Vec3(0.0, 30.0, 10.0), 5.0, SetEmittingColor(White(), Color(255, 255, 255))))
  }

  class Scene {
    var camera: Camera
    var objects: seq<Shape>
    /** The light shape; absent until `Initialize` places it. */
    var light: Option<Shape>

    /** A scene whose queries are defined: a light is present and every
        shape can be intersected. */
    ghost predicate Ready()
      reads this
    {
      light.Some? && WellFormed(light.value) && AllWellFormed(objects)
    }

    /** An empty scene with a default camera. */
    constructor ()
      ensures camera == Camera(Zero(), Zero()) && objects == [] && light == None
    {
      camera := Camera(Zero(), Zero());
      objects := [];
      light := None;
    }

    /** `Scene::initialize`: sets the camera and the light and appends the
        room to whatever objects are already there. */
    method Initialize()
      modifies this
      ensures camera == Camera(Vec3(0.0, 0.0, 0.0), Vec3(0.0, 0.0, 1.0))
      ensures light == Some(LightShape())
      ensures objects == old(objects) + SceneSpheres()
        + RectangleTriangles(Vec3(-500.0, -40.0, 0.0), Vec3(0.0, 0.0, 1000.0), Vec3(1000.0, 0.0, 0.0), White())
        + RectangleTriangles(Vec3(-500.0, 40.0, 0.0), Vec3(1000.0, 0.0, 0.0), Vec3(0.0, 0.0, 1000.0), White())
        + RectangleTriangles(Vec3(-40.0, -500.0, 0.0), Vec3(0.0, 1000.0, 0.0), Vec3(0.0, 0.0, 1000.0), White())
        + RectangleTriangles(Vec3(40.0, -500.0, 0.0), Vec3(0.0, 0.0, 1000.0), Vec3(0.0, 1000.0, 0.0), White())
        + RectangleTriangles(Vec3(-500.0, -500.0, -0.5), Vec3(1000.0, 0.0, 0.0), Vec3(0.0, 1000.0, 0.0), White())
        + RectangleTriangles(Vec3(-500.0, -500.0, 150.0), Vec3(0.0, 1000.0, 0.0), Vec3(1000.0, 0.0, 0.0), White())
      ensures |objects| == |old(objects)| + 16
      ensures AllWellFormed(old(objects)) ==> Ready()
    {
      camera := Camera(Vec3(0.0, 0.0, 0.0), Vec3(0.0, 0.0, 1.0));
      light := Some(LightShape());
      objects := objects + SceneSpheres();
      var floor := CreateRectangleSurface(Vec3(-500.0, -40.0, 0.0), Vec3(0.0, 0.0, 1000.0), Vec3(1000.0, 0.0, 0.0), White());
      objects := objects + floor;
      var ceiling := CreateRectangleSurface(Vec3(-500.0, 40.0, 0.0), Vec3(1000.0, 0.0, 0.0), Vec3(0.0, 0.0, 1000.0), White());
      objects := objects + ceiling;
      var left := CreateRectangleSurface(Vec3(-40.0, -500.0, 0.0), Vec3(0.0, 1000.0, 0.0), Vec3(0.0, 0.0, 1000.0), White());
      objects := objects + left;
      var right := CreateRectangleSurface(Vec3(40.0, -500.0, 0.0), Vec3(0.0, 0.0, 1000.0), Vec3(0.0, 1000.0, 0.0), White());
      objects := objects + right;
      var front := CreateRectangleSurface(Vec3(-500.0, -500.0, -0.5), Vec3(1000.0, 0.0, 0.0), Vec3(0.0, 1000.0, 0.0), White());
      objects := objects + front;
      var back := CreateRectangleSurface(Vec3(-500.0, -500.0, 150.0), Vec3(0.0, 1000.0, 0.0), Vec3(1000.0, 0.0, 0.0), White());
      objects := objects + back;
    }

    /** `Scene::firstIntersection`: collects the hits of the objects and then
        of the light, and returns the first of the nearest ones. */
    method FirstIntersection(ray: Ray, sqrt: real -> real) returns (r: Option<Intersection>)
      requires Ready() && IsSqrt(sqrt) && ray.Valid()
      ensures AllWellFormed(objects + [light.value])
      ensures r == Nearest(objects + [light.value], ray, sqrt)
    {
      var all := objects + [light.value];
      assert all[..|objects|] == objects;
      var intersections: seq<Intersection> := [];
      var i := 0;
      while i < |objects|
        invariant 0 <= i <= |objects|
        invariant intersections == Hits(objects[..i], ray, sqrt)
      {
        var hit := Intersect(objects[i], ray, sqrt);
        if hit.Some? {
          intersections := intersections + [hit.value];
        }
        assert objects[..i + 1][..i] == objects[..i];
        i := i + 1;
      }
      assert objects[..i] == objects;
      var lightHit := Intersect(light.value, ray, sqrt);
      if lightHit.Some? {
        intersections := intersections + [lightHit.value];
      }
      assert intersections == Hits(all, ray, sqrt);
      NearestIsMinHit(all, ray, sqrt);
      if |intersections| == 0 {
        return None;
      }
      var best := MinElement(intersections);
      r := Some(intersections[best]);
    }

    /** `Scene::hitsLight`: the ray meets the light, and every object it meets
        lies strictly beyond the light. */
    method HitsLight(ray: Ray, sqrt: real -> real) returns (b: bool)
      requires Ready() && IsSqrt(sqrt) && ray.Valid()
      ensures b <==> (Intersect(light.value, ray, sqrt).Some? &&
        forall i :: 0 <= i < |objects| && Intersect(objects[i], ray, sqrt).Some? ==>
          Intersect(objects[i], ray, sqrt).value.distance > Intersect(light.value, ray, sqrt).value.distance)
    {
      var intersections: seq<Intersection> := [];
      var i := 0;
      while i < |objects|
        invariant 0 <= i <= |objects|
        invariant intersections == Hits(objects[..i], ray, sqrt)
      {
        var hit := Intersect(objects[i], ray, sqrt);
        if hit.Some? {
          intersections := intersections + [hit.value];
        }
        assert objects[..i + 1][..i] == objects[..i];
        i := i + 1;
      }
      assert objects[..i] == objects;
      var lightHit := Intersect(light.value, ray, sqrt);
      if lightHit.None? {
        return false;
      }
      b := AllBeyond(intersections, lightHit.value.distance);
      BeyondIffShapesBeyond(objects, ray, sqrt, lightHit.value.distance);
    }
  }

  /** `std::min_element`: the index of the first hit of least distance. */
  method MinElement(hits: seq<Intersection>) returns (best: nat)
    requires |hits| > 0
    ensures best < |hits| && MinHit(hits) == Some(hits[best])
    ensures forall k :: 0 <= k < |hits| ==> hits[best].distance <= hits[k].distance
    ensures forall k :: 0 <= k < best ==> hits[k].distance > hits[best].distance
  {
    best := 0;
    var j := 1;
    assert hits[..1] == [hits[0]];
    while j < |hits|
      invariant 1 <= j <= |hits| && 0 <= best < j
      invariant MinHit(hits[..j]) == Some(hits[best])
      invariant forall k :: 0 <= k < j ==> hits[best].distance <= hits[k].distance
      invariant forall k :: 0 <= k < best ==> hits[k].distance > hits[best].distance
    {
      assert hits[..j + 1][..j] == hits[..j];
      if hits[j].distance < hits[best].distance {
        best := j;
      }
      j := j + 1;
    }
    assert hits[..j] == hits;
  }

  /** `std::all_of`: whether every hit lies strictly beyond distance `d`. */
  method AllBeyond(hits: seq<Intersection>, d: real) returns (b: bool)
    ensures b <==> forall k :: 0 <= k < |hits| ==> hits[k].distance > d
  {
    b := true;
    var j := 0;
    while j < |hits|
      invariant 0 <= j <= |hits|
      invariant b <==> forall k :: 0 <= k < j ==> hits[k].distance > d
    {
      b := b && hits[j].distance > d;
      j := j + 1;
    }
  }

  /** Every hit in `hits` lies strictly beyond distance `d`. */
  predicate AllHitsBeyond(hits: seq<Intersection>, d: real) {
    forall k :: 0 <= k < |hits| ==> hits[k].distance > d
  }

  /** Every shape the ray meets is met strictly beyond distance `d`. */
  predicate ShapesBeyond(shapes: seq<Shape>, ray: Ray, sqrt: real -> real, d: real)
    requires IsSqrt(sqrt) && ray.Valid() && AllWellFormed(shapes)
  {
    forall i :: 0 <= i < |shapes| && Intersect(shapes[i], ray, sqrt).Some? ==>
      Intersect(shapes[i], ray, sqrt).value.distance > d
  }

  /** Every collected hit lies beyond `d` exactly when every shape the ray
      meets does. */
  lemma {:induction false} BeyondIffShapesBeyond(shapes: seq<Shape>, ray: Ray, sqrt: real -> real, d: real)
    requires IsSqrt(sqrt) && ray.Valid() && AllWellFormed(shapes)
    ensures AllHitsBeyond(Hits(shapes, ray, sqrt), d) <==> ShapesBeyond(shapes, ray, sqrt, d)
    decreases |shapes|
  {
    if |shapes| > 0 {
      var p := shapes[..|shapes| - 1];
      BeyondIffShapesBeyond(p, ray, sqrt, d);
      ShapesBeyondStep(shapes, ray, sqrt, d);
      var last := Intersect(shapes[|shapes| - 1], ray, sqrt);
      if last.Some? {
        HitsBeyondAppend(Hits(p, ray, sqrt), last.value, d);
      }
    }
  }

  lemma HitsBeyondAppend(hits: seq<Intersection>, x: Intersection, d: real)
    ensures AllHitsBeyond(hits + [x], d) <==> AllHitsBeyond(hits, d) && x.distance > d
  {
    if AllHitsBeyond(hits + [x], d) {
      assert (hits + [x])[|hits|] == x;
      forall k | 0 <= k < |hits| ensures hits[k].distance > d {
        assert (hits + [x])[k] == hits[k];
      }
    }
  }

  lemma ShapesBeyondStep(shapes: seq<Shape>, ray: Ray, sqrt: real -> real, d: real)
    requires IsSqrt(sqrt) && ray.Valid() && AllWellFormed(shapes) && |shapes| > 0
    ensures var last := Intersect(shapes[|shapes| - 1], ray, sqrt);
      ShapesBeyond(shapes, ray, sqrt, d) <==>
        ShapesBeyond(shapes[..|shapes| - 1], ray, sqrt, d) && (last.Some? ==> last.value.distance > d)
  {
    var p := shapes[..|shapes| - 1];
    assert forall i :: 0 <= i < |p| ==> p[i] == shapes[i];
  }

  /** The collected hits are exactly the hits of the individual shapes. */
  lemma {:induction false} HitsAreShapeHits(shapes: seq<Shape>, ray: Ray, sqrt: real -> real)
    requires IsSqrt(sqrt) && ray.Valid() && AllWellFormed(shapes)
    ensures forall x :: x in Hits(shapes, ray, sqrt) <==>
      exists i :: 0 <= i < |shapes| && Intersect(shapes[i], ray, sqrt) == Some(x)
    decreases |shapes|
  {
    if |shapes| > 0 {
      var p := shapes[..|shapes| - 1];
      HitsAreShapeHits(p, ray, sqrt);
      assert forall i :: 0 <= i < |p| ==> p[i] == shapes[i];
    }
  }
}
