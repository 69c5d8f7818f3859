/**
 * A ray `origin + direction * t` and the point at a parameter along it
 * (`Ray::point_at_parameter` of src/gfx.rs, and of src/raytracer/ray.rs,
 * which computes the same sum through `add_by_vec` and `mul`).
 */
module Rays {
  import opened Vectors

  datatype Ray = Ray(origin: Vec3, direction: Vec3)

  /** `point_at_parameter(t)`: the point reached after `t` steps of `direction`. */
  function PointAt(r: Ray, t: real): (p: Vec3)
    ensures Sub(p, r.origin) == Scale(r.direction, t)
  {
    Add(r.origin, Scale(r.direction, t))
  }

  /** The ray starts at its origin. */
  lemma PointAtZero(r: Ray)
    ensures PointAt(r, 0.0) == r.origin
  {
  }

  /** Walking `s` and then `t` further is walking `s + t`. */
  lemma PointAtShift(r: Ray, s: real, t: real)
    ensures PointAt(r, s + t) == Add(PointAt(r, s), Scale(r.direction, t))
  {
  }
}
