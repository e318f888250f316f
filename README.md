# PathTracer core in Dafny

This project models the geometric core of a small path tracer:
- the 3-vector type and its operations (`Vec3T` in vec3.h), and the colour and hemisphere helpers of vec3.cpp;
- the ray, intersection, material and camera records;
- the ray/sphere test (`Sphere::intersect`) and the Möller–Trumbore ray/triangle test (`Triangle::intersect`);
- the `Scene`, which owns a list of shapes and a light and answers two queries: `firstIntersection` (the nearest hit along a ray) and `hitsLight` (whether the light is the first thing the ray meets).

Modules, one per source unit, except that `Records` gathers the four small headers:

- `Vectors` (vec3.dfy): `Vec3` over `real`, with the componentwise operators, `dot`, `cross`, `length` and `normalize`. `Color` is the same template over `int`. For colours only construction and division (C++ truncating integer division) are modelled.
- `VectorUtils` (vec3utils.dfy): `multiplyColors` and `createRandomVectorInHemisphere`.
- `Records` (records.dfy): `Material`, `Camera`, `Ray` (whose constructor normalizes the direction) and `Intersection` (whose constructor normalizes the surface normal).
- `Spheres` (sphere.dfy) and `Triangles` (triangle.dfy): the two intersection tests.
- `Shapes` (shape.dfy): `SceneObject` as a closed datatype of the two shapes, with `intersect` dispatched on the kind.
- `Scenes` (scene.dfy): the `Scene` class. Its fields are `camera`, `objects` (a sequence of shapes) and `light` (an optional shape). Its methods are imperative, as in the source:
  - `FirstIntersection` first collects hits in a loop, then adds the light, then runs a `min_element` loop;
  - `HitsLight` collects hits, then runs an `all_of` loop;
  - `Initialize` appends the room to the object list.
  
  Each method is proved against a reference definition. `Nearest` is a left-to-right scan that keeps the earlier hit on ties. Lemmas state what that scan means.

Square roots. The source calls `std::sqrt`. Here every function that takes a root receives it as a parameter `sqrt: real -> real` together with `requires IsSqrt(sqrt)`. That predicate says `sqrt` returns the non-negative root of every non-negative real. All results hold for any such function.

Floating point is modelled as exact `real` arithmetic. `EPSILON` of triangle.cpp is `std::numeric_limits<float>::epsilon()`, written out exactly as 2^-23.

What is proved, in brief:
- vector algebra: the identities of `dot` and `cross`, and that `normalize` returns a unit vector that is a positive multiple of its input;
- colour products: they stay within bytes, commute, have white as identity and black as zero;
- the hemisphere helper returns ± the normalized sample, never on the wrong side of `other`;
- the sphere test returns a hit iff some root of the quadratic lies on the surface and every such root is non-negative, and then it returns the nearest root;
- the triangle test is sound (the point is inside the triangle at the reported distance, with the normal `edge1 × edge2` normalized) and complete for rays not taken as parallel, that is with |a| ≥ EPSILON (every ray point inside the triangle within the distance window is then found);
- the scene's `firstIntersection` returns nothing iff no shape is hit, and otherwise the hit of the earliest shape among those with minimal distance;
- `hitsLight` holds iff the light is hit and every object hit is strictly farther. In that case `firstIntersection` returns the light's hit.

The assertion at vec3.cpp:20 (`other.dot(randomVec) > 0`) does not follow from the code before it. When the random sample is orthogonal to `other` the dot product is 0; `VectorUtils.HemisphereOrthogonalSample` exhibits such a sample. `VectorUtils.RandomVectorInHemisphere` states exactly when the product is positive.

scene.h declares a `_lightOrigin` vector and no `hitsLight`, while scene.cpp uses a light shape `_light` and defines `hitsLight`. The model follows scene.cpp.

## Model

| member | source | states |
|---|---|---|
| Vectors.Add | vec3.h:24-30 | componentwise `+`; its laws are `ZeroIdentity` and `AddSubCancel` |
| Vectors.Sub | vec3.h:32-38 | componentwise `-`; undone by `+` (`AddSubCancel`) |
| Vectors.Scale | vec3.h:40-47 | componentwise `*` by a scalar; `dot` is homogeneous in it (`DotScale`) |
| Vectors.Div | vec3.h:49-56 | componentwise `/` by a non-zero scalar; equals scaling by the inverse (`DivIsScaleByInverse`) |
| Vectors.Dot | vec3.h:58-64 | the three-term sum of products; symmetric, homogeneous and positive definite (`DotSymmetric`, `DotScale`, `DotSelf`) |
| Vectors.Cross | vec3.h:66-72 | the cross product; orthogonal to its operands and anti-commutative (`CrossOrthogonal`, `CrossAntiCommutative`) |
| Vectors.ColorDiv | vec3.h:49-56 | `/` on `Vec3T<int>`: each channel divided with truncation toward zero (`TruncDiv`) |
| Vectors.Zero | vec3.h:17-18 | the default vector has all three components zero |
| Vectors.ZeroIdentity | vec3.h:24-38 | adding or subtracting the default vector leaves a vector unchanged |
| Vectors.AddSubCancel | vec3.h:24-38 | `(a + b) - b == a` and `(a - b) + b == a` |
| Vectors.DivIsScaleByInverse | vec3.h:41-56 | dividing by `k` is scaling by `1/k`, and scaling back by `k` restores the vector |
| Vectors.DotSymmetric | vec3.h:58-64 | `a.dot(b) == b.dot(a)` |
| Vectors.DotScale | vec3.h:41-64 | `dot` is homogeneous in either operand |
| Vectors.DotSelf | vec3.h:58-64 | `v.dot(v)` is non-negative, zero for the zero vector and positive otherwise |
| Vectors.CrossOrthogonal | vec3.h:66-72 | `a.cross(b)` is orthogonal to both `a` and `b` |
| Vectors.CrossAntiCommutative | vec3.h:66-72 | `a.cross(b) == b.cross(a) * -1` |
| Vectors.TripleProductCyclic | vec3.h:58-72 | `a·(b×c)` is invariant under cyclic rotation of `a, b, c` |
| Vectors.Length | vec3.h:74-80 | the length is non-negative and its square is `v.dot(v)` |
| Vectors.LengthZero | vec3.h:74-80 | the length is zero exactly for the zero vector |
| Vectors.LengthScale | vec3.h:74-80 | scaling by a positive `k` multiplies the length by `k` |
| Vectors.Normalize | vec3.h:82-84 | the result has unit dot-square and times the length gives back the input |
| Vectors.NormalizeUnitPositiveMultiple | vec3.h:82-84 | the normalized vector has length 1 and is a positive multiple of the input |
| Vectors.NormalizeScaleInvariant | vec3.h:82-84 | normalizing a positive multiple gives the same unit vector |
| Vectors.NormalizeIdempotent | vec3.h:82-84 | normalizing a normalized vector changes nothing |
| Vectors.TruncDiv | vec3.h:50-56 | integer `/` truncates toward zero: the quotient times the divisor lies within one divisor of the dividend, on the dividend's side of zero |
| VectorUtils.MultiplyColors | vec3.cpp:25-31 | channelwise product divided by 255; its properties are the four lemmas below |
| VectorUtils.MultiplyChannel | vec3.cpp:25-31 | on bytes, a channel of the product is the floor of `p*q/255`, a byte no larger than either factor |
| VectorUtils.MultiplyColorsInRange | vec3.cpp:25-31 | the product of two byte colours is a byte colour, channel by channel no larger than either factor |
| VectorUtils.MultiplyColorsCommutative | vec3.cpp:25-31 | `multiplyColors(a, b) == multiplyColors(b, a)` |
| VectorUtils.MultiplyByWhite | vec3.cpp:25-31 | white (255, 255, 255) is the identity |
| VectorUtils.MultiplyByBlack | vec3.cpp:25-31 | black gives black |
| VectorUtils.RandomVectorInHemisphere | vec3.cpp:11-23 | the result is a unit vector equal to the normalized sample or its negation, with a non-negative dot with the normalized `other`; that dot is positive iff the sample is not orthogonal to `other` |
| VectorUtils.FlipTowards | vec3.cpp:15-18 | of a unit vector and its negation, the one kept is a unit vector with a non-negative dot with `other`, positive unless orthogonal |
| VectorUtils.NormalizedDotSign | vec3.cpp:12-18 | normalizing both operands keeps the sign of their dot product, which the flip test relies on |
| VectorUtils.HemisphereOrthogonalSample | vec3.cpp:20 | for `other = (0,0,1)` and sample `(1,0,0)` the dot is 0, so the assertion's `> 0` fails |
| Records.Plain | material.h:9-10 | a material built from a colour has that colour and no emission or reflection |
| Records.Red | material.h:14 | red is the plain material of colour (255, 0, 0) (`Plain`) |
| Records.Green | material.h:15 | green is the plain material of colour (0, 255, 0) |
| Records.Blue | material.h:16 | blue is the plain material of colour (0, 0, 255) |
| Records.Black | material.h:17 | black is the plain material of colour (0, 0, 0) |
| Records.Pink | material.h:18 | pink is the plain material of colour (255, 192, 203) |
| Records.White | scene.cpp:23 | white is the plain material of colour (255, 255, 255), the base of the light and of the boundary walls (scene.cpp:40); material.h declares no `white()`, so the model follows its use |
| Records.SetEmittingColor | scene.cpp:23 | sets the emitted colour and keeps colour and reflection |
| Records.SetReflectingPercent | scene.cpp:27 | sets the reflection share and keeps colour and emission |
| Records.MakeRay | ray.h:11-12 | the ray keeps its origin and stores a unit direction that times the original length is the given direction |
| Records.MakeIntersection | intersection.h:14-15 | the stored normal is a unit positive multiple of the given one; position, distance and material are kept |
| Spheres.NearRoot | sphere.cpp:16 | `(-b - sqrt(discriminant)) / (2a)`; a surface point (`NearRootOnSurface`) and the smallest one (`IntersectNearest`) |
| Spheres.Intersect | sphere.cpp:5-33 | a hit lies on the ray at its non-negative distance, with a unit normal and the sphere's material |
| Spheres.SurfaceQuadratic | sphere.cpp:6-10 | the squared distance from the centre of the ray point at `t`, minus `r²`, is the quadratic `a t² + b t + c` |
| Spheres.OnSurfaceIffRoot | sphere.cpp:6-10 | a ray point is on the sphere iff its parameter is a root of the quadratic |
| Spheres.QuadraticRoots | sphere.cpp:10-16 | with a non-negative discriminant the roots are exactly `(-b ± √disc)/2` |
| Spheres.NegativeDiscriminantNoRoot | sphere.cpp:10-14 | a negative discriminant leaves no root, so the early return is exact |
| Spheres.NearRootOnSurface | sphere.cpp:16 | the chosen distance is a root: the hit lies on the surface |
| Spheres.OffCentre | sphere.cpp:25 | a surface point of a non-degenerate sphere differs from the centre, so the normal is defined |
| Spheres.IntersectSound | sphere.cpp:23-32 | the hit is on the surface, and its normal is `(hit - center).normalize()` |
| Spheres.IntersectNearest | sphere.cpp:16-21 | the reported distance is no larger than any parameter of a surface point |
| Spheres.IntersectIff | sphere.cpp:5-33 | a hit is reported iff the ray line meets the surface and every meeting point has a non-negative parameter |
| Spheres.IntersectNoneCases | sphere.cpp:10-21 | no hit is reported exactly when the discriminant is negative or the near root is negative: the two early returns are the only misses |
| Spheres.NearRootNegative | sphere.cpp:16-21 | with `c < 0` the near root is negative |
| Spheres.IntersectFromInside | sphere.cpp:16-21 | a ray starting strictly inside the sphere reports no hit |
| Spheres.IntersectMissExample | sphere.cpp:12-14 | a ray along the z axis misses a sphere centred off the axis |
| Triangles.Det | triangle.cpp:11-12 | `a = edge1 · (dir × edge2)`; near zero the ray counts as parallel (`IntersectRejects`) |
| Triangles.BaryU | triangle.cpp:17-19 | `u = f (s · h)`; the first plane coordinate of the meeting point (`OffsetSolved`, `CoordinatesRecovered`) |
| Triangles.BaryV | triangle.cpp:23-24 | `v = f (dir · q)`; the second plane coordinate of the meeting point (`OffsetSolved`, `CoordinatesRecovered`) |
| Triangles.Distance | triangle.cpp:29 | `t = f (edge2 · q)`; the ray parameter of the meeting point (`PointAtDistance`, `CoordinatesRecovered`) |
| Triangles.Intersect | triangle.cpp:5-43 | a hit lies on the ray at a distance strictly between `EPSILON` and `1/EPSILON`, with a unit normal and the triangle's material |
| Triangles.NormalNonZero | triangle.cpp:11-15 | when the ray is not parallel, `edge1 × edge2` is non-zero |
| Triangles.CramerSolved | triangle.cpp:11-29 | Cramer's rule multiplied out: with `h = dir × edge2` and `q = s × edge1`, `a s == (s · h) edge1 + (dir · q) edge2 - (edge2 · q) dir`, which `OffsetSolved` divides by `a` |
| Triangles.OffsetSolved | triangle.cpp:17-29 | the computed `u`, `v`, `t` satisfy `origin - v0 == u edge1 + v edge2 - t dir` |
| Triangles.PointAtDistance | triangle.cpp:29-32 | the ray point at `t` is the plane point `v0 + u edge1 + v edge2` |
| Triangles.IntersectInTriangle | triangle.cpp:17-38 | a hit means a non-parallel ray, coordinates inside the triangle, and a position at the barycentric point of distance `t` |
| Triangles.IntersectRejects | triangle.cpp:14-42 | a parallel ray, `u` outside `[0,1]`, `v < 0` or `u + v > 1`, or `t` outside the window each give no hit |
| Triangles.IntersectNormal | triangle.cpp:33-38 | the normal is `normalize(edge1 × edge2)`, orthogonal to both edges and independent of the ray |
| Triangles.CoordinatesRecovered | triangle.cpp:17-29 | for a non-parallel ray the computed `u`, `v`, `t` are the unique coordinates of the meeting point |
| Triangles.IntersectAccepts | triangle.cpp:14-38 | when the ray is not parallel, `u`, `v` lie in the triangle and `EPSILON < t < 1/EPSILON`, a hit is reported at distance `t` |
| Triangles.IntersectComplete | triangle.cpp:5-43 | for a ray not taken as parallel (`|a| >= EPSILON`), every meeting point inside the triangle with `EPSILON < t < 1/EPSILON` is reported, at distance `t` |
| Triangles.UpwardRayCoordinates | triangle.cpp:11-29 | for the triangle (0,0,0), (1,0,0), (0,1,0) and a ray from `(px, py, -1)` along +z: `a = -1`, so the ray is not parallel, and `u = px`, `v = py`, `t = 1` |
| Triangles.IntersectHitExample | triangle.cpp:5-43 | the ray from (0.25, 0.25, -1) along +z hits that triangle at distance 1 |
| Triangles.IntersectMissExample | triangle.cpp:17-21 | the ray from (2, 2, -1) along +z misses it, because `u = 2 > 1` |
| Shapes.Intersect | sceneobject.h:12 | any shape's hit lies on the ray at a non-negative distance, with a unit normal and the shape's material |
| Scenes.NearestIsMinHit | scene.cpp:119-144 | collecting the hits and taking `min_element` equals the direct scan `Nearest` |
| Scenes.NearestNoneIff | scene.cpp:137-139 | the scan finds nothing iff no shape is hit |
| Scenes.NearestIsFirstMinimum | scene.cpp:141-143 | the hit found is some shape's hit, no farther than any hit, and every earlier shape's hit is strictly farther |
| Scenes.HitsAreShapeHits | scene.cpp:124-129 | the collected list contains exactly the hits of the individual shapes |
| Scenes.VisibleLightIsNearest | scene.cpp:146-166 | when every object hit lies strictly beyond the light hit, the nearest hit is the light's |
| Scenes.MinElement | scene.cpp:141-143 | the `min_element` loop returns the index of the first hit of minimal distance: no hit is nearer and every earlier hit is strictly farther; its hit is the reference `MinHit` |
| Scenes.AllBeyond | scene.cpp:162-165 | the `all_of` loop holds iff every collected hit is strictly farther than the given distance |
| Scenes.BeyondIffShapesBeyond | scene.cpp:148-165 | every collected hit is strictly farther than a distance iff every object that is hit is hit strictly farther |
| Scenes.CreateRectangleSurface | scene.cpp:8-18 | returns the triangles `(o, o+d1, o+d2)` and `(o+d1, o+d1+d2, o+d2)` |
| Scenes.FirstTrianglePoint | scene.cpp:15 | the first triangle's coordinates `(u, v)` name the parallelogram point `o + u d1 + v d2` |
| Scenes.SecondTrianglePoint | scene.cpp:16 | the second triangle's coordinates `(u, v)` name the parallelogram point `(1 - v, u + v)` |
| Scenes.RectangleCovered | scene.cpp:8-18 | every point of the parallelogram lies inside one of the two triangles |
| Scenes.RectangleContainsTriangles | scene.cpp:8-18 | every point inside either triangle lies in the parallelogram |
| Scenes.SceneSpheres | scene.cpp:26-37 | the four spheres of the room with their centres, radius 5 and materials |
| Scenes.LightShape | scene.cpp:23-24 | the light: a sphere at (0, 30, 10) of radius 5 emitting white |
| Scenes.Scene.constructor | scene.h:12-15 | a new scene has a default camera, no objects and no light |
| Scenes.Scene.Initialize | scene.cpp:20-117 | sets the camera and the white emitting light sphere at (0, 30, 10) of radius 5, and appends the four spheres and twelve wall triangles after the existing objects |
| Scenes.Scene.FirstIntersection | scene.cpp:119-144 | the result is `Nearest` over the objects followed by the light |
| Scenes.Scene.HitsLight | scene.cpp:146-166 | true iff the light is hit and every object hit is strictly farther than the light hit |

## Left out

- Floating point: `float` is modelled as exact `real`. Rounding, NaN, infinities and `float` overflow are not modelled, and neither is the `int` overflow of colour products.
- `std::sqrt`/`std::sqrtf` are a parameter that must return the non-negative square root.
- Randomness: `vectorutils::randomVector` and the random number helpers in utils.cpp draw numbers, so they are not modelled. The hemisphere helper takes its random sample as a parameter.
- main.cpp (image loop, camera rays, bounce colouring, SDL window output) and vec3_simd.h are not part of this model.
- Camera is a plain record; nothing in the core computes with it.
- `Vec3T<int>` `+`, `-`, `*`, `dot` and `cross` are not modelled for colours: the core only builds colours and divides them by 255.
- VectorUtils.RandomVectorInHemisphere: the abort of the `assert` at vec3.cpp:20 is not modelled; the function returns the unflipped sample there. Its ensures `Dot(Normalize(other), r) > 0.0 <==> Dot(other, sample) != 0.0` states exactly when that assertion would fire.
- Triangles.IntersectComplete: requires that the ray not be taken as parallel (|a| ≥ EPSILON). The source also rejects near-parallel rays that do cross the triangle, e.g. a triangle with legs of length 1e-4, where |a| = 1e-8 < 2^-23.
- Vectors.Normalize: requires a non-zero vector. The source divides by a zero length, giving NaN.
- Records.MakeRay: requires a non-zero direction, for the same reason.
- Records.MakeIntersection: requires a non-zero normal, for the same reason.
- VectorUtils.RandomVectorInHemisphere: requires non-zero `other` and sample, for the same reason.
- Spheres.Intersect: requires a non-zero radius. With radius 0 a ray through the centre hands the zero vector to `normalize()`.
- Vectors.TruncDiv: requires a positive divisor. The core only divides colours by 255.
- Scenes.Scene.FirstIntersection: requires a light, which `Initialize` sets. The source dereferences the empty `_light` pointer otherwise.
- Scenes.Scene.HitsLight: requires a light, as `FirstIntersection` does.
- Material: material.h has only a colour and the five named colours. `white()`, `setEmittingColor` and `setReflectingPercent`, used by scene.cpp, are not part of this model's sources. They are modelled from their use as an optional emitted colour and an optional reflection share, with white as (255, 255, 255).
- There is no concrete example of a sphere hit. Proofs about vectors with literal components, together with the square-root assumption, are too costly for the solver here. The triangle examples therefore pin each component of the triangle and the ray by a `requires` instead of writing literal vectors. `Spheres.IntersectIff` and `Spheres.IntersectNearest` cover sphere hits symbolically.
