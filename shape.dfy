/** `SceneObject` (sceneobject.h): the closed family of shapes a scene holds,
    with `intersect` dispatched on the kind of shape. */
module Shapes {
  import opened Vectors
  import opened Records
  import Spheres
  import Triangles

  datatype Shape = SphereShape(sphere: Spheres.Sphere) | TriangleShape(triangle: Triangles.Triangle)
  {
    function Material(): Material {
      match this
      case SphereShape(s) => s.material
      case TriangleShape(t) => t.material
    }
  }

  /** Shapes whose intersection is defined: a sphere needs a non-zero
      radius. */
  predicate WellFormed(s: Shape) {
    s.SphereShape? ==> s.sphere.radius != 0.0
  }

  /** `SceneObject::intersect`. Every hit lies on the ray at its distance,
      never behind the origin, with a unit normal and the shape's material. */
  function Intersect(s: Shape, ray: Ray, sqrt: real -> real): (r: Option<Intersection>)
    requires IsSqrt(sqrt) && ray.Valid() && WellFormed(s)
    ensures r.Some? ==> r.value.distance >= 0.0
    ensures r.Some? ==> r.value.position == PointAt(ray, r.value.distance)
    ensures r.Some? ==> Dot(r.value.normal, r.value.normal) == 1.0
    ensures r.Some? ==> r.value.material == s.Material()
  {
    match s
    case SphereShape(sp) => Spheres.Intersect(sp, ray, sqrt)
    case TriangleShape(t) => Triangles.Intersect(t, ray, sqrt)
  }
}
