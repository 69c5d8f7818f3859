# A verified model of the rust_raytracer core

This project is a Dafny model of the deterministic core of `rust_raytracer`, a small Rust ray tracer. The model covers four parts:

- **The PPM raster.** This is the plain-text "P3" image of the Netpbm family. The model covers creation (all white), the dimensions, a bounds-checked pixel write that returns the old pixel or an error message, and the serialiser `to_string`.
- **The vector type.** This is `Vec3` with its components, index access, products, and component-wise arithmetic, both copying and in place.
- **The ray / sphere / world intersection protocol.** `check_hit(ray, t_min, t_max, &mut rec) -> bool` chooses the nearer root of the ray–sphere quadratic that lies strictly inside `(t_min, t_max)`. A world scans its objects and narrows `t_max` to each hit it accepts.
- **The standalone renderer of `src/gfx.rs`.** This covers its own sphere, its `HitableList` of `Shapes`, and its fixed camera.

Floating point is modelled by the reals (`real`). The square root is a parameter `sqrt: real -> real`. Each lemma states what it needs of the square root: `NonNegativeRoot` (never negative), `ExactRoot` (also squares back), or just one value.

## Modules

| module | file | what it holds |
|---|---|---|
| `Wrappers` | wrappers.dfy | `Option` and `Result`, for `Option<…>`, `Result<…, String>` and panics |
| `Decimal` | decimal.dfy | the decimal text `{}` writes for an unsigned integer, and its reader |
| `Text` | text.dfy | split, join, "newline after every line", `String::pop` |
| `Netpbm` | netpbm.dfy | the PPM image of src/ppm.rs and src/raytracer/formats/mod.rs |
| `NetpbmDecode` | netpbm_decode.dfy | a P3 reader, the inverse the serialiser is checked against |
| `Vectors` | vectors.dfy | `Vec3` of src/raytracer/math/vec3.rs and of src/gfx.rs |
| `Rays` | rays.dfy | `Ray` and `point_at_parameter` |
| `Spheres` | spheres.dfy | the quadratic and the root choice shared by both sphere types |
| `Objects` | objects.dfy | `World`, `Sphere`, `HitRecord` and `check_hit` of src/raytracer/object.rs |
| `Gfx` | gfx.dfy | `HitableList`, `Shapes`, the gfx `Sphere` and `Camera` |

Some source code appears more than once, and each copy is modelled once:

- `src/ppm.rs` and the private `ppm` module of `src/raytracer/formats/mod.rs` are the same code. The table cites src/ppm.rs. `Pixel::new` exists only in formats/mod.rs, and `NewPixel` cites it there.
- The operators of `src/gfx.rs` are the methods of `vec3.rs` under other names: `+` is `Add`, binary `-` is `Sub`, `* k` is `Scale`, `/ k` is `Div`, and unary `-` is `Neg`. The gfx `Index`/`IndexMut` are `Index` and `SetIndex`, and the `vec3!` macro is `New`.
- The gfx compound assignments `+=`, `-=`, `*=` and `/=` (src/gfx.rs:70-76, 89-95, 119-125, 138-144) update the fields one by one. `AddByVecEq`, `SubByVecEq`, `MulEq` and `DivEq` do the same, so they model these too.
- `dot_product` and `cross_product` (vec3.rs:176-182) forward to `dot` and `cross`, and they are `Dot` and `Cross`.
- `Ray::point_at_parameter` of src/raytracer/ray.rs computes the same sum as the one in src/gfx.rs.

Three details of the intersection protocol shape the model:

- **`check_hit` returns a flag and writes a record.** It returns a `bool` and writes the hit through `&mut rec`. The model returns the pair `(hit, record)`. On a miss the caller's record comes back unchanged. A world's scratch record `temp` persists from one object to the next.
- **`HitableList::check_hit` ignores `t_min`.** Its parameter is `_t_min`, and it asks every child from `0.0`. Its hits therefore lie in `(0, t_max)`, whatever `t_min` the caller passes. `ListIgnoresTMin` and `ListMatchesWorld` state the consequences.
- **The list copies only three fields.** It copies `t`, `p` and `normal` into the caller's record, because the gfx record has no material.

## Model

| member | source | states |
|---|---|---|
| `Decimal.NatToString` | src/ppm.rs:12 | `{}` of an unsigned number is a non-empty run of digits without a leading zero (except `0` itself) |
| `Decimal.ParseNatToString` | src/ppm.rs:46 | the decimal text written for any number reads back as that number |
| `Decimal.NatToStringInjective` | src/ppm.rs:46 | different numbers are written differently |
| `Netpbm.NewPixel` | src/raytracer/formats/mod.rs:13-19 | `Pixel::new` stores the three channels as given |
| `Netpbm.New` | src/ppm.rs:34-40 | a new image is well formed (`width` columns of `height` pixels), has the requested dimensions, and every pixel is white `(255, 255, 255)` |
| `Netpbm.Set` | src/ppm.rs:56-67 | `set` succeeds exactly when `x < width` and `y < height`; then it returns the old pixel, the cell holds the new one, and every other cell and the dimensions are unchanged; otherwise the image is untouched and the error reads `set(x, y) out of bounds for wxh image` |
| `Netpbm.SetRestore` | src/ppm.rs:58-60 | writing back the pixel an in-bounds `set` returned restores the image |
| `Netpbm.SetTwice` | src/ppm.rs:59 | a second `set` of the same cell overrides the first |
| `Netpbm.PixelLinesLength` | src/ppm.rs:47-52 | the loops write exactly one line per pixel |
| `Netpbm.PixelLinesRowMajor` | src/ppm.rs:47-49 | the outer loop runs over rows and the inner over columns, so pixel `(x, y)` is written as line `y * width + x` |
| `Netpbm.EmptyImageText` | src/ppm.rs:46-54 | an image with no pixels is written as its header alone, without the final newline |
| `Netpbm.HeaderText` | src/ppm.rs:46 | the header is the three lines `P3`, `width height`, `255`, each followed by a newline |
| `Netpbm.WriteRow` | src/ppm.rs:48-51 | the inner loop appends the row's pixels, left to right, each followed by a newline |
| `Netpbm.Serialize` | src/ppm.rs:44-55 | `to_string` yields the header lines and then the pixel lines in row-major order, joined by single newlines with nothing after the last |
| `Netpbm.PixelToString` | src/ppm.rs:11-13 | `Pixel::to_string` contains no newline and splits at single spaces into exactly three fields, the decimal texts of `r`, `g` and `b` |
| `Netpbm.GetDimensions` | src/ppm.rs:41-43 | for a well-formed image, `get_dimensions` is the shape of the pixel grid: `width` columns, each of `height` pixels |
| `NetpbmDecode.ParsePixelToString` | src/ppm.rs:11-13 | `Pixel::to_string` (`r g b`) reads back as the same pixel |
| `NetpbmDecode.TextLines` | src/ppm.rs:44-55 | no line of the output contains a newline, so splitting the text at newlines recovers its lines |
| `NetpbmDecode.DecodeImageText` | src/ppm.rs:44-55 | reading back the text `to_string` writes gives the image that was written (dimensions and every pixel) |
| `NetpbmDecode.ImageTextInjective` | src/ppm.rs:44-55 | two well-formed images with the same text are the same image |
| `Vectors.Index` | src/raytracer/math/vec3.rs:147-157 | `v[i]` succeeds exactly for `i < 3`; any larger index is the panic `Vec3 index out of bounds: i` |
| `Vectors.SetIndex` | src/raytracer/math/vec3.rs:159-168 | writing through `v[i]` changes component `i` to the new value and leaves the other two as they were; a larger index panics with the same message as reading |
| `Vectors.SetIndexOwnValue` | src/raytracer/math/vec3.rs:159-168 | writing back the value just read leaves the vector unchanged |
| `Vectors.Extensionality` | src/raytracer/math/vec3.rs:147-157 | two vectors whose three indices read the same are equal |
| `Vectors.New` | src/raytracer/math/vec3.rs:21-27 | `v[0]`, `v[1]`, `v[2]` of `Vec3::new(x, y, z)` are `x`, `y`, `z` |
| `Vectors.All` | src/raytracer/math/vec3.rs:29-35 | every index of `Vec3::all(k)` reads `k` |
| `Vectors.Copy` | src/raytracer/math/vec3.rs:37-43 | `copy` is equal to the original |
| `Vectors.Dot` | src/raytracer/math/vec3.rs:45-47 | `a.dot(b)` is the sum over the indices `0..3` of `a[i] * b[i]` |
| `Vectors.Cross` | src/raytracer/math/vec3.rs:49-55 | component `i` of `a.cross(b)` is `a[i+1] b[i+2] - a[i+2] b[i+1]`, indices taken mod 3 |
| `Vectors.SquaredLength` | src/raytracer/math/vec3.rs:57-59 | `squared_length` is the sum over the indices of `v[i]^2` |
| `Vectors.AddScalar` | src/raytracer/math/vec3.rs:73-75 | every index of `v.add(k)` reads `v[i] + k` |
| `Vectors.Add` | src/raytracer/math/vec3.rs:81-83 | every index of `a.add_by_vec(b)` (gfx `+`) reads `a[i] + b[i]` |
| `Vectors.SubScalar` | src/raytracer/math/vec3.rs:89-91 | every index of `v.sub(k)` reads `v[i] - k` |
| `Vectors.Sub` | src/raytracer/math/vec3.rs:97-99 | every index of `a.sub_by_vec(b)` (gfx binary `-`) reads `a[i] - b[i]` |
| `Vectors.Div` | src/raytracer/math/vec3.rs:105-107 | every index of `v.div(k)` (gfx `/ k`) reads `v[i] / k` |
| `Vectors.DivByVec` | src/raytracer/math/vec3.rs:113-115 | every index of `a.div_by_vec(b)` reads `a[i] / b[i]` |
| `Vectors.Scale` | src/raytracer/math/vec3.rs:121-123 | every index of `v.mul(k)` (gfx `* k`) reads `v[i] * k` |
| `Vectors.MulByVec` | src/raytracer/math/vec3.rs:129-131 | every index of `a.mul_by_vec(b)` reads `a[i] * b[i]` |
| `Vectors.Neg` | src/raytracer/math/vec3.rs:137-139 | every index of `v.neg()` (gfx unary `-`) reads `-v[i]` |
| `Vectors.SquaredLengthIsSelfDot` | src/raytracer/math/vec3.rs:57-59 | `squared_length` is the dot product of the vector with itself, and never negative |
| `Vectors.DotSymmetric` | src/raytracer/math/vec3.rs:45-47 | `a.dot(b) == b.dot(a)` |
| `Vectors.CrossOrthogonal` | src/raytracer/math/vec3.rs:49-55 | the cross product is perpendicular to both factors |
| `Vectors.CrossAntisymmetric` | src/raytracer/math/vec3.rs:49-55 | swapping the factors negates the cross product |
| `Vectors.AddSubInverse` | src/raytracer/math/vec3.rs:73-99 | `add`/`sub` by a scalar, and `add_by_vec`/`sub_by_vec` by a vector, undo each other |
| `Vectors.SubIsAddNeg` | src/raytracer/math/vec3.rs:97-139 | subtracting is adding the negation; `neg` undoes itself; `v + (-v)` is zero |
| `Vectors.AddScalarIsAddAll` | src/raytracer/math/vec3.rs:73-91 | adding or subtracting a scalar is the same as adding or subtracting `Vec3::all` of it |
| `Vectors.ScaleDivInverse` | src/raytracer/math/vec3.rs:105-123 | `mul(k)` and `div(k)` undo each other for `k != 0` |
| `Vectors.MulDivByVecInverse` | src/raytracer/math/vec3.rs:113-131 | `mul_by_vec(w)` and `div_by_vec(w)` undo each other when no component of `w` is zero |
| `Vectors.ScaleLaws` | src/raytracer/math/vec3.rs:121-139 | `mul(k)` is `mul_by_vec(all(k))`, it scales dot products by `k`, and `neg` is `mul(-1)` |
| `Vectors.DotDistributes` | src/raytracer/math/vec3.rs:45-47 | the dot product distributes over vector addition and subtraction |
| `Vectors.SquaredLengthOfSum` | src/raytracer/math/vec3.rs:57-59 | `|u + t v|^2 = |u|^2 + 2t (u . v) + t^2 |v|^2`, the expansion behind the sphere quadratic |
| `Vectors.AddEq` | src/raytracer/math/vec3.rs:76-80 | the in-place `add_eq` ends equal to what `add` returns |
| `Vectors.AddByVecEq` | src/raytracer/math/vec3.rs:84-88 | `add_by_vec_eq` (and gfx `+=`) ends equal to `add_by_vec` |
| `Vectors.SubEq` | src/raytracer/math/vec3.rs:92-96 | `sub_eq` ends equal to `sub` |
| `Vectors.SubByVecEq` | src/raytracer/math/vec3.rs:100-104 | `sub_by_vec_eq` (and gfx `-=`) ends equal to `sub_by_vec` |
| `Vectors.DivEq` | src/raytracer/math/vec3.rs:108-112 | `div_eq` (and gfx `/=`) ends equal to `div` |
| `Vectors.DivByVecEq` | src/raytracer/math/vec3.rs:116-120 | `div_by_vec_eq` ends equal to `div_by_vec` |
| `Vectors.MulEq` | src/raytracer/math/vec3.rs:124-128 | `mul_eq` (and gfx `*=`) ends equal to `mul` |
| `Vectors.MulByVecEq` | src/raytracer/math/vec3.rs:132-136 | `mul_by_vec_eq` ends equal to `mul_by_vec` |
| `Vectors.NegEq` | src/raytracer/math/vec3.rs:140-144 | `neg_eq` ends equal to `neg` |
| `Rays.PointAt` | src/gfx.rs:182-184 | the point at parameter `t` lies `t` steps of `direction` away from the origin |
| `Rays.PointAtZero` | src/gfx.rs:182-184 | the ray is at its origin for `t = 0` |
| `Rays.PointAtShift` | src/gfx.rs:182-184 | going `s` and then `t` further is going `s + t` |
| `Spheres.QuadraticIsDistance` | src/raytracer/object.rs:133-136 | with `a`, `b`, `c` as `check_hit` computes them, `a t^2 + 2 b t + c` is, at every `t`, the squared distance of `point_at_parameter(t)` from the center minus `radius^2`; its roots are where the ray meets the sphere |
| `Spheres.ChooseRoot` | src/raytracer/object.rs:138-158 | an accepted parameter lies strictly between `t_min` and `t_max`; there is none when the discriminant is not positive |
| `Spheres.NearBeforeFar` | src/raytracer/object.rs:141-149 | with a non-negative square root, the root tried first is the smaller one |
| `Spheres.ChooseRootIsLeast` | src/raytracer/object.rs:140-157 | a root is accepted exactly when one of the two roots lies in the open interval, and the accepted one is the smallest such root |
| `Spheres.ChooseRootNarrowed` | src/raytracer/object.rs:142-150 | asking again with a smaller `t_max` keeps the answer if it lies below the new bound and otherwise finds nothing |
| `Spheres.ChosenPointOnSphere` | src/raytracer/object.rs:143-152 | with an exact square root, the hit point is at distance `radius` from the center |
| `Objects.NewWorld` | src/raytracer/object.rs:47-51 | a new world has no objects |
| `Objects.AddObject` | src/raytracer/object.rs:52-54 | `add_object` appends the object and keeps the others in order |
| `Objects.PopObject` | src/raytracer/object.rs:55-57 | `pop_object` returns `None` exactly on an empty world (which stays as it was), and otherwise the last object, such that adding it back gives the original world |
| `Objects.PopAfterAdd` | src/raytracer/object.rs:52-57 | popping right after adding returns the added object and the world before |
| `Objects.WellFormedKept` | src/raytracer/object.rs:52-57 | adding a well-formed object and popping keep every sphere's radius non-zero |
| `Objects.SphereHit` | src/raytracer/object.rs:132-159 | `Sphere::check_hit` hits exactly when a root is accepted, and then writes the accepted root as `t`, the point at it, the normal `(p - center) / radius` and the sphere's material; on a miss the record is unchanged |
| `Objects.ObjectHit` | src/raytracer/object.rs:38-40 | through the `Object` trait, a hit lies strictly inside `(t_min, t_max)` and a miss leaves the record unchanged, for spheres and nested worlds alike |
| `Objects.Scan` | src/raytracer/object.rs:99-111 | the loop's accepted hits have strictly decreasing `t`, all inside `(t_min, t_max)`; `hit_anything` is set exactly when some hit was accepted; `closest_so_far` and `rec` then hold the last one; otherwise `rec` is unchanged and `closest_so_far` is `t_max` |
| `Objects.WorldHit` | src/raytracer/object.rs:97-113 | `World::check_hit` reports a hit only inside `(t_min, t_max)` and leaves the record alone on a miss |
| `Objects.ClosestIsLeast` | src/raytracer/object.rs:97-113 | the reference "closest report" is empty exactly when no object hits on its own; otherwise it is an object's report with the least `t`, from the earliest such object |
| `Objects.ObjectNarrowed` | src/raytracer/object.rs:103 | asking any object with a smaller upper bound gives its full-interval answer if that lies below the bound, and a miss with the record untouched otherwise |
| `Objects.WorldNarrowed` | src/raytracer/object.rs:97-113 | the same holds for a world nested inside a world |
| `Objects.ScanMatchesClosest` | src/raytracer/object.rs:101-111 | after any number of objects, the loop has hit exactly when the closest report so far lies below the bound, and `rec` holds that report |
| `Objects.WorldHitIsClosest` | src/raytracer/object.rs:97-113 | `World::check_hit` returns true exactly when some object hits on its own, and then leaves the closest hit (earliest object among equals) in the record; otherwise the record is unchanged |
| `Objects.WorldHitsIffSomeObjectHits` | src/raytracer/object.rs:102-104 | a world hits exactly when one of its objects, asked with the same interval, hits |
| `Gfx.GfxSphereHit` | src/gfx.rs:242-267 | the gfx sphere hits exactly when a root is accepted, and then writes the accepted root as `t`, the point at it and the normal `(p - center) / radius`; on a miss the record is unchanged |
| `Gfx.ShapeHit` | src/gfx.rs:226-229 | a shape's hit lies below `t_max`, above `t_min` for a sphere and above `0` for a list, and a miss leaves the record unchanged |
| `Gfx.ListScan` | src/gfx.rs:218-237 | the list's loop leaves `rec` unchanged and `closest_so_far` at `t_max` when nothing was hit, and otherwise leaves `rec` equal to the last accepted hit, whose `t` is `closest_so_far` and lies in `(0, t_max)` |
| `Gfx.ListHit` | src/gfx.rs:216-240 | `HitableList::check_hit` reports a hit only inside `(0, t_max)`, whatever `t_min` is, and leaves the record alone on a miss |
| `Gfx.ListIgnoresTMin` | src/gfx.rs:217 | the list's answer is the same for every `t_min` |
| `Gfx.ShapeMatchesObject` | src/gfx.rs:226-229 | a gfx shape answers as the same shape in the `Objects` model does, with the default material, for spheres with any `t_min` and for lists with `t_min = 0` |
| `Gfx.ListMatchesWorld` | src/gfx.rs:216-240 | a list answers as its `ToWorld` image, the corresponding `Objects` world, asked from `t_min = 0` |
| `Gfx.ScanMatchesWorld` | src/gfx.rs:225-237 | step by step, the list's loop state is the world's loop state with the material dropped |
| `Gfx.ListHitIsClosest` | src/gfx.rs:216-240 | with a non-negative square root, the list hits exactly when some child hits on its own from `t = 0`, and then the record holds the closest such hit; the caller's `t_min` plays no part |
| `Gfx.SingleSphereList` | src/gfx.rs:225-237 | a list holding one sphere answers as that sphere asked from `t = 0` |
| `Gfx.GetRay` | src/gfx.rs:317-319 | `get_ray(u, v)` leaves the camera origin towards `lower_left_corner + u horizontal + v vertical` |
| `Gfx.DefaultCameraRays` | src/gfx.rs:309-319 | the default camera's ray for `(u, v)` leaves the origin towards `(4u - 2, 2v - 1, -1)` |
| `Gfx.ScreenRayAimed` | src/gfx.rs:311 | every ray towards the plane `z = -1` has a positive `a`, so the sphere test applies to every camera ray |
| `Gfx.CenterRayHitsSphere` | src/gfx.rs:243-256 | the ray straight down `-z` hits the sphere of radius 1/2 at `(0, 0, -1)` at `t = 1/2`, at the point `(0, 0, -1/2)`, with the normal `(0, 0, 1)` |

## Left out

- `src/raytracer/material.rs` is not part of this model. Scattering, albedo arithmetic and reflectance belong to the renderer, not to this core; `Material` is only carried through hit records.
- `src/raytracer/camera.rs` and `src/main.rs` are not part of this model. They build the picture and its rays using trigonometry and random numbers.
- `ray_color`, `Ray::get_color` and `random_unit_in_sphere` / `random_in_unit_sphere` are left out. They draw random numbers and loop until a draw is accepted. The acceptance test of `random_unit_in_sphere` (src/gfx.rs:274) keeps points with squared length at least 1, the opposite of what its name says.
- `World::random` is left out. It builds a scene from random numbers.
- `magnitude` and `as_unit` are left out. They need a square root, and they divide by zero for the zero vector.
- The `Display` impls are left out. Formatting an `f32` is not modelled.
- `f32` rounding, infinities and NaN are left out. All arithmetic is exact arithmetic on reals. Where the source would divide by zero, the model asks for a non-zero divisor instead:
  - `Div` and `DivEq` need `k != 0`;
  - `DivByVec` and `DivByVecEq` need every component non-zero;
  - every sphere needs `radius != 0` (`WellFormed`, `ShapeWellFormed`);
  - every ray needs `a > 0` (`Aimed`).
- `Ray::get_color` in src/raytracer/ray.rs builds a `HitRecord` without the `material` field that src/raytracer/object.rs declares, so those two files do not agree. Only the `point_at_parameter` of ray.rs is modelled.
- `Sphere::new` (src/raytracer/object.rs:123-129) and `Ray::new` are the datatype constructors `Sphere(…)` and `Ray(…)`.
- `Objects.SphereHit`: does not state that the normal has unit length. That holds only when the square root is exact, and the nonlinear real arithmetic needed to prove it was left out. The distance from the hit point to the center is proved instead (`Spheres.ChosenPointOnSphere`).
- `Spheres.ChosenPointOnSphere`: assumes an exact square root, which `f32::sqrt` is not.
- `Gfx.DefaultCameraRays`: the camera ray's direction is stated by its components. That the ray can be traced is the separate `Gfx.ScreenRayAimed`.
