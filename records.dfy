/** The value types the intersection code passes around: `Material`,
    `Camera`, `Ray` and `Intersection` (material.h, camera.h, ray.h,
    intersection.h). */
module Records {
  import opened Vectors

  datatype Option<T> = None | Some(value: T)

  // ----- Material ---------------------------------------------------------

  /** A surface: its base colour, an optional emitted colour (a light) and
      an optional mirror-reflection percentage. */
  datatype Material = Material(color: Color, emitting: Option<Color>, reflecting: Option<real>)

  /** `Material(Color)`: a plain coloured surface, neither emitting nor
      reflecting. */
  function Plain(c: Color): (m: Material)
    ensures m.color == c && m.emitting.None? && m.reflecting.None?
  {
    Material(c, None, None)
  }

  function Red(): Material { Plain(Color(255, 0, 0)) }
  function Green(): Material { Plain(Color(0, 255, 0)) }
  function Blue(): Material { Plain(Color(0, 0, 255)) }
  function Black(): Material { Plain(Color(0, 0, 0)) }
  function Pink(): Material { Plain(Color(255, 192, 203)) }
  /** `Material::white()`: full intensity on every channel. */
  function White(): Material { Plain(Color(255, 255, 255)) }

  /** `setEmittingColor`: the same surface, now emitting `c`. */
  function SetEmittingColor(m: Material, c: Color): (r: Material)
    ensures r.emitting == Some(c)
    ensures r.color == m.color && r.reflecting == m.reflecting
  {
    m.(emitting := Some(c))
  }

  /** `setReflectingPercent`: the same surface, now reflecting `p`. */
  function SetReflectingPercent(m: Material, p: real): (r: Material)
    ensures r.reflecting == Some(p)
    ensures r.color == m.color && r.emitting == m.emitting
  {
    m.(reflecting := Some(p))
  }

  // ----- Camera -----------------------------------------------------------

  /** `Camera(position, direction)`: both stored as given. */
  datatype Camera = Camera(position: Vec3, direction: Vec3)

  // ----- Ray --------------------------------------------------------------

  /** A ray. Its direction is always a unit vector, because the only way
      to build one normalizes it (`Valid`). */
  datatype Ray = Ray(origin: Vec3, direction: Vec3) {
    ghost predicate Valid() {
      Dot(direction, direction) == 1.0
    }
  }

  /** The constructor `Ray(origin, direction)`: keeps the origin and
      normalizes the direction, which therefore may not be the zero vector. */
  function MakeRay(origin: Vec3, direction: Vec3, sqrt: real -> real): (r: Ray)
    requires IsSqrt(sqrt)
    requires direction != Zero()
    ensures r.Valid()
    ensures r.origin == origin
    ensures Scale(r.direction, Length(direction, sqrt)) == direction
  {
    Ray(origin, Normalize(direction, sqrt))
  }

  /** The point `origin + direction * t` reached after travelling `t` along the ray. */
  function PointAt(ray: Ray, t: real): Vec3 {
    Add(ray.origin, Scale(ray.direction, t))
  }

  // ----- Intersection -----------------------------------------------------

  datatype Intersection = Intersection(position: Vec3, normal: Vec3, distance: real, material: Material)

  /** The constructor `Intersection(position, surfaceNormal, distance,
      material)`: stores the normal normalized, so it may not be the zero
      vector; the other fields are stored as given. */
  function MakeIntersection(position: Vec3, normal: Vec3, distance: real, material: Material,
                            sqrt: real -> real): (r: Intersection)
    requires IsSqrt(sqrt)
    requires normal != Zero()
    ensures Dot(r.normal, r.normal) == 1.0
    ensures Scale(r.normal, Length(normal, sqrt)) == normal
    ensures r.position == position && r.distance == distance && r.material == material
  {
    Intersection(position, Normalize(normal, sqrt), distance, material)
  }
}
