# A verified model of the pathtracer's geometry core

This project models, over the real numbers, the geometric core of a small
Rust ray tracer:

- the vector algebra of `Vec3` and the unit normal `Norm3`;
- rays, with `walk` and `distance_to`;
- the ray–sphere and ray–plane intersection tests;
- the first, single-file renderer in `src/main.rs`. That covers its own
  `Vec3`, the pinhole camera, the older sphere test with the `signum` trick
  and the `inside` flag, and the pixel loop. The loop keeps the nearest hit
  per pixel and writes its shade into a flat, row-major RGB byte buffer;
- the superseded `src/math.rs`.

Every `f32` is a `real`. The square root of the platform library
(`f32::sqrt`) is a parameter `sqrt: real -> real` of every operation that
needs it. The predicate `IsSqrt(sqrt)` says that it returns the
non-negative root of every non-negative number (module `RealSqrt`). A
bodiless function for the root would be an unchecked axiom; taking `sqrt`
as a parameter under `requires IsSqrt(sqrt)` states the same single
assumption wherever it is used, and nothing more.

Modules, one per file:

| file | module | source |
|---|---|---|
| `real_sqrt.dfy` | `RealSqrt` | the `sqrt` parameter and facts about real products |
| `options.dfy` | `Options` | Rust's `Option` |
| `vectors.dfy` | `Vectors` | `src/math/vec3.rs`, `src/math/norm3.rs` |
| `rays.dfy` | `Rays` | `src/math/mod.rs` |
| `spheres.dfy` | `Spheres` | `src/shapes/sphere.rs` |
| `planes.dfy` | `Planes` | `src/shapes/plane.rs` |
| `legacy_math.dfy` | `LegacyMath` | `src/math.rs` |
| `prototype_math.dfy` | `PrototypeMath` | `src/main.rs`, lines 5-89 |
| `prototype.dfy` | `Prototype` | the rest of `src/main.rs` |

`Norm3` is a subset type of `RawNorm3`. It carries the check of
`Norm3::new` exactly as the code writes it: `x*x + y*y + z*z - 1 < 0.001`.
So every ray direction and every hit normal carries the check by its type.
The check is one-sided: every vector shorter than unit length passes it,
the zero vector included (`Vectors.UnitCheckIsOneSided`). The check
accepts more than unit vectors, and the model keeps it exactly as written.

The newer sphere test `intersect` returns no hit whenever `tca < 0`. That
includes a ray that starts inside the sphere and points away from its
centre: such a ray does meet the surface ahead, yet gets no hit
(`Spheres.NoHitFromInsidePointingAway`). The `inside` flag of its hits is
always false.

## Model

| member | source | states |
|---|---|---|
| Vectors.Vec3.LengthSqr | src/math/vec3.rs:15-17 | definition: `dot(self, self)`; properties in `Vectors.LengthSqrNonNegative` and `Vectors.LengthSqrZeroIff` |
| Vectors.Vec3.Dot | src/math/vec3.rs:28-30 | definition; symmetry in `Vectors.DotSymmetric`, agreement with `Norm3::dot` in `Vectors.NormOperationsAgree` |
| Vectors.Vec3.Cross | src/math/vec3.rs:32-38 | definition; properties in `Vectors.CrossOrthogonal` and `Vectors.CrossAntisymmetric` |
| Vectors.Vec3.Neg | src/math/vec3.rs:54-60 | definition; properties in `Vectors.NegInvolutive` and `Vectors.NegKeepsLengthSqr` |
| Vectors.Vec3.Add | src/math/vec3.rs:62-72 | definition; `Vectors.SubUndoesAdd` relates it to subtraction |
| Vectors.Vec3.Sub | src/math/vec3.rs:74-80 | definition, written component-wise; `Vectors.SubIsAddNeg` shows it is the source's `self + (-other)` |
| Vectors.Vec3.Mul | src/math/vec3.rs:82-88 | definition; `Vectors.MulDivComponentwise` relates it to `Div` |
| Vectors.Vec3.Scale | src/math/vec3.rs:90-104 | definition of `v * k` and `&v * k`; `Vectors.ScalarProductsAgree` |
| Vectors.ScalarTimes | src/math/vec3.rs:106-112 | definition of `k * &v`; `Vectors.ScalarProductsAgree` shows it equals `v * k` |
| Vectors.Vec3.DivBy | src/math/vec3.rs:115-121 | definition; `Vectors.DividedByLengthIsUnit` is about its use in `normalized` |
| Vectors.Vec3.Div | src/math/vec3.rs:122-128 | definition; `Vectors.MulDivComponentwise` |
| Vectors.Vec3.Length | src/math/vec3.rs:19-21 | the length is non-negative and squares to `length_sqr` |
| Vectors.Vec3.Normalized | src/math/vec3.rs:23-26 | for a vector of positive length, the result has squared length exactly 1 and scaled by the length gives back the vector, so the check of `Norm3::new` always passes |
| Vectors.LengthSqrNonNegative | src/math/vec3.rs:15-17 | `length_sqr` (= `dot(v, v)`) is never negative |
| Vectors.LengthSqrZeroIff | src/math/vec3.rs:15-17 | `length_sqr` is zero exactly for the zero vector |
| Vectors.LengthSqrPositive | src/math/vec3.rs:15-17 | a non-zero vector has positive squared length |
| Vectors.LengthPositiveIff | src/math/vec3.rs:19-21 | the length is positive exactly for non-zero vectors, which is what `normalized` needs |
| Vectors.DotSymmetric | src/math/vec3.rs:28-30 | `dot(a, b) == dot(b, a)` |
| Vectors.CrossOrthogonal | src/math/vec3.rs:32-38 | `cross(a, b)` is orthogonal to `a` and to `b` |
| Vectors.CrossAntisymmetric | src/math/vec3.rs:32-38 | `cross(a, b) == -cross(b, a)` |
| Vectors.NegInvolutive | src/math/vec3.rs:54-60 | negating twice gives the vector back |
| Vectors.SubIsAddNeg | src/math/vec3.rs:74-80 | subtraction is `a + (-b)`, as the source writes it |
| Vectors.SubUndoesAdd | src/math/vec3.rs:62-80 | subtraction and addition undo each other, and `a - a` is zero |
| Vectors.NegKeepsLengthSqr | src/math/vec3.rs:54-60 | negation keeps the squared length |
| Vectors.ScalarProductsAgree | src/math/vec3.rs:90-112 | `k * &v`, `&v * k` and `v * k` are the same component-wise scaling |
| Vectors.MulDivComponentwise | src/math/vec3.rs:82-128 | component-wise product and quotient invert each other, and the product commutes |
| Vectors.DividedByLengthIsUnit | src/math/vec3.rs:23-25 | `v / length(v)` has squared length 1, passes the unit check and scales back to `v` |
| Vectors.NormalizedPointsAlong | src/math/vec3.rs:23-26 | `v · normalized(v)` equals the length of `v`, so it is positive: the result points along `v` |
| Vectors.RawNorm3.Dot | src/math/norm3.rs:17-19 | definition; `Vectors.NormOperationsAgree` |
| Vectors.RawNorm3.Cross | src/math/norm3.rs:21-27 | definition; `Vectors.NormOperationsAgree` and `Vectors.NormCrossOrthogonal` |
| Vectors.RawNorm3.Scale | src/math/norm3.rs:52-66 | definition of `n * k` and `&n * k`; `Vectors.NormScaleAgrees` |
| Vectors.ScalarTimesNorm | src/math/norm3.rs:68-74 | definition of `k * &n`; `Vectors.NormScaleAgrees` |
| Vectors.RawNorm3.Into | src/math/norm3.rs:76-80 | definition; `Vectors.IntoKeepsComponents` |
| Vectors.NewNorm3 | src/math/norm3.rs:11-15 | `Norm3::new` accepts exactly the vectors that pass its check, and keeps their components |
| Vectors.UnitCheckIsOneSided | src/math/norm3.rs:11-15 | every vector no longer than 1 passes the check, the zero vector included |
| Vectors.RawNorm3.Clone | src/math/norm3.rs:37-41 | `clone` goes through `new` again and returns identical components |
| Vectors.RawNorm3.Neg | src/math/norm3.rs:44-50 | `neg` goes through `new` again, always passes it, and returns the negated vector |
| Vectors.NormOperationsAgree | src/math/norm3.rs:17-27 | `Norm3::dot` and `Norm3::cross` equal the `Vec3` operations on the converted vector |
| Vectors.NormCrossOrthogonal | src/math/norm3.rs:21-27 | `Norm3::cross` is orthogonal to both operands |
| Vectors.NormScaleAgrees | src/math/norm3.rs:52-74 | scaling a normal gives a `Vec3` with each component scaled, the same on either side of `*` |
| Vectors.IntoKeepsComponents | src/math/norm3.rs:76-80 | `into()` keeps x, y and z, and the result satisfies the unit check |
| Vectors.PassesUnitCheck | src/math/norm3.rs:13 | definition: the `assert!` of `Norm3::new`, `x² + y² + z² - 1 < 0.001`, which the `Norm3` subset type carries; `Vectors.UnitCheckIsOneSided` shows it is one-sided |
| Rays.Ray.Walk | src/math/mod.rs:27-29 | definition; properties in `Rays.WalkIsAffine` and `Rays.WalkDistance` |
| Rays.DistanceToSquared | src/math/mod.rs:19-25 | for every ray and every point `p` other than the origin, the square of `distance_to(p)` is `(origin·d − \|d\|)²` with `d = p - origin` |
| Rays.Ray.DistanceTo | src/math/mod.rs:19-25 | for a point other than the origin, the reported distance is non-negative |
| Rays.Projection | src/math/mod.rs:21 | definition: the `projection` local, `origin·d * d / len`; `Rays.DistanceToSquared` and `Rays.DistanceToMissesPointOnRay` show what it does to the result |
| Rays.DistanceToIgnoresDirection | src/math/mod.rs:19-25 | `distance_to` gives the same value whatever the ray's direction |
| Rays.DistanceToFromWorldOrigin | src/math/mod.rs:19-25 | from the world origin, `distance_to(p)` is the length of `p` |
| Rays.DistanceToMissesPointOnRay | src/math/mod.rs:21 | for the ray from the world origin along +x, `distance_to((2,0,0))` is 2, but the point lies on the ray, at perpendicular distance 0 |
| Rays.PerpendicularDistance | src/math/mod.rs:19-25 | the intended distance from a point to the ray's line, never negative; it is that distance along a direction of exact unit length (`UnitDirection`), which the two lemmas below require |
| Rays.PerpendicularDistanceIsOrthogonal | src/math/mod.rs:19-25 | along a direction of exact unit length (`UnitDirection`), the offset from the foot point to `p` is orthogonal to the direction, and (squared distance) + k² = \|p - origin\|² |
| Rays.PerpendicularDistanceOnRay | src/math/mod.rs:19-29 | along a direction of exact unit length (`UnitDirection`), every point `walk(t)` has perpendicular distance 0 |
| Rays.WalkIsAffine | src/math/mod.rs:27-29 | `walk(0)` is the origin, `walk(t) - origin` is `dir * t`, and `walk(s + t) = walk(s) + dir * t` |
| Rays.WalkDistance | src/math/mod.rs:27-29 | along a direction of exact unit length, `walk(t)` lies at squared distance `t²` from the origin |
| Spheres.Tca | src/shapes/sphere.rs:15-16 | definition: `(pos - origin) · dir`; used by `Spheres.Root`, and `Spheres.TranslatedTcaAndD2` shows it is unchanged by translation |
| Spheres.D2 | src/shapes/sphere.rs:22 | definition: `l·l - tca²`; `Spheres.RootNeedsCloseLine` shows why `d2 > radius²` means no hit |
| Spheres.Radius2 | src/shapes/sphere.rs:23 | definition: `radius2 = radius * radius`; used by `Spheres.Root` and `Spheres.OnSurface` |
| Spheres.Root | src/shapes/sphere.rs:15-44 | no hit exactly when `tca < 0` or `d2 > radius²`; a hit's parameter is never negative |
| Spheres.RootFrom | src/shapes/sphere.rs:15-44 | the same conditions over `tca`, `d2` and `radius²` |
| Spheres.RootChoice | src/shapes/sphere.rs:28-44 | `thc ≥ 0` and squares to `radius² - d2`, so `t0 ≤ t1` and the swap never fires; the result is `t0`, or `t1` when `t0 < 0` |
| Spheres.Intersect | src/shapes/sphere.rs:14-55 | no hit exactly when `Root` has none; otherwise `point_on_ray` is the root, `hitpoint = walk(t)`, `inside` is false, and the normal is the unit vector from the centre to the hit point |
| Spheres.RootOnSurface | src/shapes/sphere.rs:37-52 | along a unit direction the hit point lies on the sphere: `\|hitpoint - pos\|² = radius²` |
| Spheres.RootIsNearest | src/shapes/sphere.rs:37-44 | when `tca ≥ 0` and a unit direction reaches the surface at some `u ≥ 0`, there is a hit no farther than `u`: the smallest non-negative root |
| Spheres.UnitDirNormalDefined | src/shapes/sphere.rs:46-52 | with a unit direction and a non-zero radius the hit point is never the centre, so the normal exists |
| Spheres.TranslationInvariant | src/shapes/sphere.rs:15-44 | moving sphere and ray by the same offset does not change the reported root |
| Spheres.NoHitFromInsidePointingAway | src/shapes/sphere.rs:15-20 | a ray from inside the sphere (radius 2, origin (1,0,0)) pointing away from the centre reaches the surface at `t = 1`, yet there is no hit |
| Spheres.QuadraticRoot | src/shapes/sphere.rs:28-35 | both chord ends `tca ± thc` solve the ray–sphere quadratic |
| Spheres.QuadraticRootsAreChordEnds | src/shapes/sphere.rs:28-35 | every solution of the quadratic is one of the two chord ends |
| Spheres.RootNeedsCloseLine | src/shapes/sphere.rs:22-26 | a surface point on the line exists only when `d2 ≤ radius²`, so the `d2` test loses no hit |
| Spheres.AimedAtCentre | src/shapes/sphere.rs:14-55 | a unit-direction ray aimed at the centre from outside, at distance `dist > radius > 0`, gets a hit at `t = dist - radius` whose normal is `-dir`; `dist` is the length of `pos - origin` |
| Planes.Crossing | src/shapes/plane.rs:17-19 | definition of `t`; `Planes.OnPlaneIff` shows it is the only parameter where the ray meets the plane |
| Planes.Denom | src/shapes/plane.rs:14 | definition: `denom = normal · dir`; `Planes.Intersect` reports no hit when its absolute value is at most 0.0001 |
| Planes.Center | src/shapes/plane.rs:17 | definition: `plane_center = normal * distance_to_origin`; `Planes.HitOnPlane` and `Planes.OnPlaneIff` state the plane it spans |
| Planes.Intersect | src/shapes/plane.rs:13-31 | no hit exactly when `\|normal·dir\| ≤ 0.0001` or the crossing `t ≤ 0`; a hit has `point_on_ray = t > 0`, `hitpoint = walk(t)`, the plane's own normal, and `inside` false |
| Planes.OnPlaneIff | src/shapes/plane.rs:14-19 | for a non-parallel ray, `walk(t)` lies on the plane exactly at the crossing parameter |
| Planes.HitOnPlane | src/shapes/plane.rs:17-23 | the reported hit point lies on the plane: `hitpoint·normal = distance_to_origin * (normal·normal)` |
| Planes.CrossingIsFound | src/shapes/plane.rs:16-27 | a non-parallel ray that meets the plane at some `s > 0` gets a hit, at exactly `s` |
| Planes.Abs | src/shapes/plane.rs:16 | `abs` is non-negative and is the value or its negation |
| LegacyMath.Vec3.LengthSqr | src/math.rs:14-16 | definition; `LegacyMath.SameLengthSqr` ties it to `Vectors.Vec3.LengthSqr` |
| LegacyMath.Vec3.Dot | src/math.rs:27-29 | definition; `LegacyMath.AgreesWithCurrent` |
| LegacyMath.Vec3.Neg | src/math.rs:39-45 | definition; `LegacyMath.NegInvolutive` and `LegacyMath.AgreesWithCurrent` |
| LegacyMath.Vec3.Add | src/math.rs:47-57 | definition; `LegacyMath.SubUndoesAdd` and `LegacyMath.AgreesWithCurrent` |
| LegacyMath.Vec3.Sub | src/math.rs:59-65 | definition, component-wise; `LegacyMath.SubIsAddNeg` |
| LegacyMath.Vec3.Mul | src/math.rs:67-73 | definition; `LegacyMath.MulDivComponentwise` |
| LegacyMath.Vec3.Scale | src/math.rs:75-89 | definition of `v * k` and `&v * k`; `LegacyMath.ScalarProductsAgree` |
| LegacyMath.ScalarTimes | src/math.rs:91-97 | definition of `k * &v`; `LegacyMath.ScalarProductsAgree` |
| LegacyMath.Vec3.DivBy | src/math.rs:100-106 | definition; used by `LegacyMath.Vec3.Normalized` |
| LegacyMath.Vec3.Div | src/math.rs:107-113 | definition; `LegacyMath.MulDivComponentwise` |
| LegacyMath.Vec3.Length | src/math.rs:19-21 | the length is non-negative and squares to `length_sqr` |
| LegacyMath.Vec3.Normalized | src/math.rs:23-25 | `self / self.length()` has squared length 1 and scales back to the vector |
| LegacyMath.AgreesWithCurrent | src/math.rs:27-97 | add, sub, neg, component-wise mul, scalar mul and dot compute what the later `Vec3` computes |
| LegacyMath.SubIsAddNeg | src/math.rs:59-65 | subtraction is `a + (-b)` |
| LegacyMath.NegInvolutive | src/math.rs:39-45 | negation is an involution |
| LegacyMath.SubUndoesAdd | src/math.rs:47-65 | subtraction and addition undo each other |
| LegacyMath.ScalarProductsAgree | src/math.rs:75-97 | `k * &v`, `&v * k` and `v * k` agree |
| LegacyMath.MulDivComponentwise | src/math.rs:67-113 | component-wise `*` and `/` invert each other |
| LegacyMath.LengthPositive | src/math.rs:14-21 | a non-zero vector has positive length |
| LegacyMath.DistanceToSquared | src/math.rs:121-127 | for every ray and every `p` other than `start`, the square of `distance_to(p)` is `(start·d − \|d\|)²` with `d = p - start` |
| LegacyMath.Ray.DistanceTo | src/math.rs:121-127 | for `p` other than `start`, the reported distance is non-negative |
| LegacyMath.DistanceToIgnoresDirection | src/math.rs:121-127 | the direction is never used |
| LegacyMath.DistanceToFromWorldOrigin | src/math.rs:121-127 | from the world origin, the result is the length of `p` |
| LegacyMath.DistanceToMissesPointOnRay | src/math.rs:123 | the point `(2,0,0)` of the ray from the origin along +x is reported at distance 2 |
| PrototypeMath.Vec3.LengthSqr | src/main.rs:16-18 | definition; `PrototypeMath.LengthSqrZeroIff` |
| PrototypeMath.Vec3.Dot | src/main.rs:29-31 | definition; used by `PrototypeMath.Vec3.LengthSqr` |
| PrototypeMath.Vec3.Neg | src/main.rs:41-47 | definition; `PrototypeMath.NegInvolutive` |
| PrototypeMath.Vec3.Add | src/main.rs:49-59 | definition; `PrototypeMath.SubUndoesAdd` |
| PrototypeMath.Vec3.Sub | src/main.rs:61-67 | definition, component-wise; `PrototypeMath.SubIsAddNeg` |
| PrototypeMath.Vec3.Scale | src/main.rs:69-75 | definition; `PrototypeMath.ScalarDivision` |
| PrototypeMath.Vec3.DivBy | src/main.rs:76-82 | definition; `PrototypeMath.ScalarDivision` and `PrototypeMath.Vec3.Normalized` |
| PrototypeMath.Vec3.Div | src/main.rs:83-89 | definition; `PrototypeMath.ScalarDivision` |
| PrototypeMath.Vec3.Length | src/main.rs:20-23 | the length is non-negative and squares to `length_sqr` |
| PrototypeMath.Vec3.Normalized | src/main.rs:25-27 | `self / self.length_sqr()`: the result scales back to the vector by the squared length and has squared length `1 / length_sqr(v)` |
| PrototypeMath.NormalizedUnitIff | src/main.rs:25-27 | the result is a unit vector exactly when the input already was one |
| PrototypeMath.NormalizedNotUnit | src/main.rs:25-27 | `(2,0,0)` becomes `(0.5,0,0)`, of squared length 0.25 |
| PrototypeMath.LengthSqrZeroIff | src/main.rs:16-18 | `length_sqr` is zero exactly for the zero vector |
| PrototypeMath.SubIsAddNeg | src/main.rs:61-67 | subtraction is `a + (-b)` |
| PrototypeMath.NegInvolutive | src/main.rs:41-47 | negation is an involution |
| PrototypeMath.SubUndoesAdd | src/main.rs:49-67 | subtraction and addition undo each other |
| PrototypeMath.ScalarDivision | src/main.rs:69-89 | `/ k` undoes `* k`, and equals `/ (k, k, k)` |
| Prototype.NewCamera | src/main.rs:115-124 | both screen corners sit at `pos.z + 1`; they differ by `(w, h, 0)` and are symmetric about `pos + (0, 0, 1)` |
| Prototype.GenerateRay | src/main.rs:126-135 | the ray of pixel `pix` is `PixelRay`: it starts at the eye and points to the screen point `pix / res` of the way across, normalised by the prototype's `normalized` |
| Prototype.ScreenPoint | src/main.rs:127-133 | definition of `screen.0 + screen_size` for a pixel; `Prototype.ScreenCorners` shows it runs from corner to corner |
| Prototype.PixelRay | src/main.rs:126-135 | the ray starts at the eye; its direction scaled by the squared distance to the screen point is that point's offset, and it points towards the screen (`dir.z > 0`) |
| Prototype.ScreenCorners | src/main.rs:126-135 | pixel `(0, 0)` aims at the first screen corner, and pixel `res` at the second |
| Prototype.Signum | src/main.rs:158 | `signum` is `-1` below zero and `1` from zero up |
| Prototype.RR | src/main.rs:144 | definition: `rr = radius.powi(2)` |
| Prototype.Offset | src/main.rs:145 | definition: `l = pos - start` |
| Prototype.LL | src/main.rs:146 | definition: `ll = l·l`; `Prototype.Intersect` sets `inside` exactly when `ll < rr` |
| Prototype.S | src/main.rs:147 | definition: `s = l·dir`; `Prototype.OutsideBehindMisses` shows the `s < 0` exit loses no hit |
| Prototype.PointAt | src/main.rs:164 | definition: `p = start + dir * t`; `Prototype.HitOnSurface` and `Prototype.HitIsNearest` are about it |
| Prototype.ParamFrom | src/main.rs:144-163 | no hit when `s < 0 && ll > rr` or `ll - s² > rr`; a hit's parameter is never negative |
| Prototype.Param | src/main.rs:143-163 | the same conditions for a sphere and a ray |
| Prototype.Intersect | src/main.rs:143-171 | no hit exactly when `Param` has none; otherwise `t ≥ 0`, `hitpoint = start + dir * t`, `inside` holds exactly when `ll < rr`, and the normal points from the centre to the hit point |
| Prototype.ParamIsChordEnd | src/main.rs:153-159 | the result is the far chord end `s + thc` from inside and the near end `s - thc` otherwise |
| Prototype.ParamInside | src/main.rs:158-163 | from strictly inside there is always a hit, strictly ahead, and the near chord end is behind the start |
| Prototype.ParamSolves | src/main.rs:153-159 | the result solves the ray–sphere quadratic `t² - 2ts + ll = rr` |
| Prototype.ParamNearest | src/main.rs:144-163 | every positive solution `u` of the quadratic gives a hit no larger than `u` |
| Prototype.OutsideBehindMisses | src/main.rs:149-151 | from outside or on the surface, with the centre behind (`s < 0`), every point strictly ahead lies strictly outside the sphere, so the early exit loses no hit |
| Prototype.HitOnSurface | src/main.rs:158-166 | along a unit direction the hit point lies on the sphere |
| Prototype.HitIsNearest | src/main.rs:144-163 | along a unit direction, any surface point strictly ahead gives a hit no farther than it |
| Prototype.InsideAlwaysHits | src/main.rs:158-170 | from strictly inside the sphere every ray hits, strictly ahead, with `inside` set |
| Prototype.Shots | src/main.rs:217-219 | the intersection with each sphere, in scene order |
| Prototype.Nearest | src/main.rs:217-230 | the selected index is `None` exactly when nothing is hit; otherwise it is a hit strictly nearer than every earlier hit and no farther than every later one: minimum, first wins on ties |
| Prototype.NearestStep | src/main.rs:219-228 | one scan step: a strictly nearer hit replaces the best so far, anything else keeps it |
| Prototype.NearestHit | src/main.rs:214-230 | the scan returns the hit at the `Nearest` index and the material of the same index, or no hit and no material |
| Prototype.ToByte | src/main.rs:188-190 | the `as u8` cast saturates at 0 and 255 and truncates in between |
| Prototype.Index | src/main.rs:186 | definition of `to_index`; `Prototype.IndexInBounds` and `Prototype.PixelsDisjoint` |
| Prototype.Channel | src/main.rs:188-190 | definition: the x, y or z component written at channel 0, 1 or 2 |
| Prototype.IndexInBounds | src/main.rs:185-191 | for `x < w`, `y < h` and `c < 3`, index `y*w*3 + x*3 + c` lies inside a buffer of `w*h*3` bytes |
| Prototype.PixelNumberInjective | src/main.rs:186 | distinct pixels of one row width get distinct row-major numbers |
| Prototype.PixelsDisjoint | src/main.rs:185-191 | the bytes of any other pixel lie outside the three bytes `fill_color` writes |
| Prototype.FillColor | src/main.rs:185-191 | writes the three cast channels at the pixel's three indices; every other byte is unchanged |
| Prototype.Shade | src/main.rs:235-236 | definition: the material scaled by `(-dir)·normal` |
| Prototype.PixelByte | src/main.rs:212-237 | definition of the byte the loop leaves at a pixel channel: the cast shade of the nearest hit, or 0 for no hit or an inside hit; `Prototype.Render` is proved to write it |
| Prototype.RenderPixel | src/main.rs:212-238 | the pixel's three bytes become `PixelByte` (0 for no hit or an inside hit); every other byte is unchanged |
| Prototype.Render | src/main.rs:207-240 | a fresh `w*h*3`-byte buffer whose every pixel byte is `PixelByte`: the shade of the nearest hit's material, or 0 |

## Left out

- Floating point: rounding, NaN and infinities are not modelled. Every `f32` is a real, and `f32::sqrt` is the exact root passed in as `sqrt`.
- Division by zero gives infinities or NaN in the source. The model asks for a non-zero divisor instead. This covers the divisions in `normalized`, `DivBy`, `Div` and `distance_to`. `normalized`, `DivBy` and `Div` occur in all three vector modules; `distance_to` occurs in `Vectors`/`Rays` and in `LegacyMath` only.
- Spheres.Intersect: the predicate `NormalDefined` requires that the hit point not be the centre. There, `normalized` would give NaN components, and `Norm3::new` would panic. `Spheres.UnitDirNormalDefined` shows that this always holds for a unit direction and a non-zero radius.
- Prototype.Intersect: the same `NormalDefined` requirement. It is carried by `NearestHit`, `RenderPixel`, `Render` and `PixelByte` through `AllNormalsDefined` and `SceneDefined`. The prototype's directions are not unit vectors, so the model cannot rule out a hit at the centre for them. There the prototype does not panic: its `normalized` divides 0 by 0, the shade is NaN, and `as u8` turns it into byte 0 (src/main.rs:167, 236 and 188-190). That byte is what the model does not capture.
- Prototype.GenerateRay: requires a camera whose screen lies one unit in front of the eye (`ValidCamera`, which `NewCamera` establishes) and a non-zero resolution. The division by the resolution is the reason.
- Prototype.Render: requires `w*h*3` to fit in a `u32`, because the source computes the buffer size and every index in `u32`.
- Prototype.FillColor: requires the index to fit in a `u32`, for the same reason. Its first requirement, that the pixel's last index lie inside the buffer, also excludes the slice-index panic of src/main.rs:188-190. `Render`'s calls always meet it (`Prototype.IndexInBounds`), so the pixel loop never reaches that panic.
- Rays.PerpendicularDistance: is the perpendicular distance only when the direction has squared length exactly 1. The one-sided check of `Norm3::new` also admits shorter directions, and for those the foot point `walk(k)` is not the closest point of the line; the corrected distance would have to divide `k` by `|dir|²`, and the zero direction would need a case of its own.
- Prototype.NearestHit requires at least as many materials as spheres. The source indexes `materials[i]` only when sphere `i` is hit and is the nearest so far (src/main.rs:221-225), so it panics only then; `main` passes equal lengths (src/main.rs:196-204).
- `u32` wrap-around is not modelled, because the requirements above exclude it.
- The integer-to-float casts of pixel coordinates and resolutions are taken as exact.
- `write_ppm` and the final write in `main` are file I/O.
- The hard-coded camera, spheres and materials of `main` (src/main.rs:194-204) are left out. The pixel loop takes them as parameters.
- The `Object3D` trait (src/math/mod.rs:1-5) and its accessors only expose x, y and z. Operations that take either kind of vector take a `Vec3`, and a normal is passed as `n.Into()`.
- `Clone`/`Copy` of `Vec3` copy the value. `Sphere::new` (src/shapes/sphere.rs:10-12), `Plane::new` and `Vec3::new` are the datatype constructors.
- The square root is a parameter rather than an axiomatised function: a bodiless function would be an unchecked axiom, while the parameter states the same single assumption (`IsSqrt`) wherever it is used.

## Findings

| source | as written | input that shows it | evidently intended | confidence | as-written member | corrected member |
|---|---|---|---|---|---|---|
| src/math/mod.rs:21 | `distance_to` projects with `self.origin.dot(&d)`, where `d = p - origin`, and never reads `dir`. Its result depends only on `origin` and `p`, and equals \|origin·d − \|d\|\| (`Rays.DistanceToSquared`) | ray from `(0,0,0)` along `(1,0,0)`, point `(2,0,0)`: it returns 2, though the point is on the ray | the perpendicular distance from the point to the ray's line, projecting `p - origin` on `dir` | not executed | Rays.DistanceToMissesPointOnRay | Rays.PerpendicularDistance |

The same projection appears in `src/math.rs:123`
(`LegacyMath.DistanceToMissesPointOnRay`). The prototype's `normalized`
(src/main.rs:25-27) divides by the squared length. Its results are unit
vectors only for unit inputs (`PrototypeMath.NormalizedUnitIff`), and the
later iterations divide by the length. The pixel loop is modelled with the
division as written, so it is not listed as a finding.
