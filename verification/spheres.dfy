/**
 * The ray-sphere intersection shared by both sphere types of the repository
 * (`Sphere::check_hit` in src/raytracer/object.rs and in src/gfx.rs): the
 * half-`b` quadratic `a t^2 + 2 b t + c = 0`, its discriminant `b^2 - a c`,
 * and the choice of root: the near root `(-b - sqrt d) / a` if it lies
 * strictly between `t_min` and `t_max`, otherwise the far root
 * `(-b + sqrt d) / a` if that does, otherwise none.
 *
 * The square root is a parameter: the model assumes of it only what each
 * lemma states.
 */
module Spheres {
  import opened Wrappers
  import opened Vectors
  import opened Rays

  /** The square root never returns a negative number for a positive input. */
  ghost predicate NonNegativeRoot(sqrt: real -> real) {
    forall d :: d > 0.0 ==> sqrt(d) >= 0.0
  }

  /** The square root is exact on positive inputs. */
  ghost predicate ExactRoot(sqrt: real -> real) {
    forall d :: d > 0.0 ==> sqrt(d) >= 0.0 && sqrt(d) * sqrt(d) == d
  }

  /** `a = direction . direction` is positive: the ray points somewhere. */
  predicate Aimed(r: Ray) {
    Dot(r.direction, r.direction) > 0.0
  }

  datatype Quadratic = Quadratic(a: real, b: real, c: real)

  /** `a`, `b` and `c` as `check_hit` computes them, with `oc = origin - center`. */
  function Coefficients(r: Ray, center: Vec3, radius: real): (q: Quadratic)
    ensures Aimed(r) ==> q.a > 0.0
  {
    var oc := Sub(r.origin, center);
    Quadratic(Dot(r.direction, r.direction), Dot(oc, r.direction), Dot(oc, oc) - radius * radius)
  }

  /** `a t^2 + 2 b t + c`. */
  function Eval(q: Quadratic, t: real): real {
    q.a * (t * t) + 2.0 * q.b * t + q.c
  }

  /**
   * The coefficients describe the ray against the sphere: at every parameter
   * `t`, `a t^2 + 2 b t + c` is the squared distance of `point_at_parameter(t)`
   * from the center minus `radius^2`, so its roots are where the ray meets the
   * surface.
   */
  lemma QuadraticIsDistance(r: Ray, center: Vec3, radius: real, t: real)
    ensures var q := Coefficients(r, center, radius);
      q.a * (t * t) + 2.0 * q.b * t + q.c == SquaredLength(Sub(PointAt(r, t), center)) - radius * radius
  {
    var oc := Sub(r.origin, center);
    assert Sub(PointAt(r, t), center) == Add(oc, Scale(r.direction, t));
    SquaredLengthOfSum(oc, r.direction, t);
    SquaredLengthIsSelfDot(oc);
    SquaredLengthIsSelfDot(r.direction);
  }

  /** `QuadraticIsDistance` with the left-hand side as `Eval`. */
  lemma EvalIsDistance(r: Ray, center: Vec3, radius: real, t: real)
    ensures Eval(Coefficients(r, center, radius), t) == SquaredLength(Sub(PointAt(r, t), center)) - radius * radius
  {
    QuadraticIsDistance(r, center, radius, t);
  }

  function Discriminant(q: Quadratic): real {
    q.b * q.b - q.a * q.c
  }

  function NearRoot(sqrt: real -> real, q: Quadratic): real
    requires q.a != 0.0
  {
    (-q.b - sqrt(Discriminant(q))) / q.a
  }

  function FarRoot(sqrt: real -> real, q: Quadratic): real
    requires q.a != 0.0
  {
    (-q.b + sqrt(Discriminant(q))) / q.a
  }

  /** `temp < t_max && temp > t_min`: strictly inside the interval. */
  predicate Inside(t: real, tMin: real, tMax: real) {
    t < tMax && t > tMin
  }

  /** The parameter `check_hit` accepts, if any. */
  function ChooseRoot(sqrt: real -> real, r: Ray, center: Vec3, radius: real, tMin: real, tMax: real)
    : (t: Option<real>)
    requires Aimed(r)
    ensures t.Some? ==> Inside(t.value, tMin, tMax)
    ensures Discriminant(Coefficients(r, center, radius)) <= 0.0 ==> t.None?
  {
    var q := Coefficients(r, center, radius);
    if Discriminant(q) > 0.0 then
      var near := NearRoot(sqrt, q);
      if Inside(near, tMin, tMax) then Some(near)
      else
        var far := FarRoot(sqrt, q);
        if Inside(far, tMin, tMax) then Some(far) else None
    else None
  }

  // ---- The choice is the least root in range ----

  /** A root of the quadratic, as `check_hit` computes the two of them. */
  predicate Candidate(sqrt: real -> real, q: Quadratic, t: real)
    requires q.a != 0.0
  {
    Discriminant(q) > 0.0 && (t == NearRoot(sqrt, q) || t == FarRoot(sqrt, q))
  }

  lemma NearBeforeFar(sqrt: real -> real, q: Quadratic)
    requires NonNegativeRoot(sqrt) && q.a > 0.0 && Discriminant(q) > 0.0
    ensures NearRoot(sqrt, q) <= FarRoot(sqrt, q)
  {
    var s := sqrt(Discriminant(q));
    assert s >= 0.0;
    DivMonotone(-q.b - s, -q.b + s, q.a);
  }

  lemma DivMonotone(x: real, y: real, a: real)
    requires x <= y && a > 0.0
    ensures x / a <= y / a
  {
    assert y / a - x / a == (y - x) / a;
  }

  /**
   * With a non-negative square root, the accepted parameter is the smallest
   * of the two roots that lie strictly inside `(t_min, t_max)`, and there is
   * none exactly when neither root lies there.
   */
  lemma ChooseRootIsLeast(sqrt: real -> real, r: Ray, center: Vec3, radius: real, tMin: real, tMax: real)
    requires NonNegativeRoot(sqrt) && Aimed(r)
    ensures var q := Coefficients(r, center, radius);
      var t := ChooseRoot(sqrt, r, center, radius, tMin, tMax);
      && (t.Some? <==> exists u :: Candidate(sqrt, q, u) && Inside(u, tMin, tMax))
      && (t.Some? ==> Candidate(sqrt, q, t.value))
      && (t.Some? ==> forall u :: Candidate(sqrt, q, u) && Inside(u, tMin, tMax) ==> t.value <= u)
  {
    var q := Coefficients(r, center, radius);
    if Discriminant(q) > 0.0 {
      NearBeforeFar(sqrt, q);
      var near, far := NearRoot(sqrt, q), FarRoot(sqrt, q);
      assert Candidate(sqrt, q, near) && Candidate(sqrt, q, far);
    }
  }

  /**
   * Asking again with a smaller upper bound `bound <= t_max` keeps the
   * answer if it is below `bound`, and otherwise finds nothing: the far root
   * is never picked in place of a near root that the smaller bound cut off.
   */
  lemma ChooseRootNarrowed(sqrt: real -> real, r: Ray, center: Vec3, radius: real, tMin: real, tMax: real, bound: real)
    requires NonNegativeRoot(sqrt) && Aimed(r) && bound <= tMax
    ensures var t := ChooseRoot(sqrt, r, center, radius, tMin, tMax);
      ChooseRoot(sqrt, r, center, radius, tMin, bound) ==
        if t.Some? && t.value < bound then t else None
  {
    var q := Coefficients(r, center, radius);
    if Discriminant(q) > 0.0 {
      NearBeforeFar(sqrt, q);
    }
  }

  // ---- With an exact square root the hit point is on the sphere ----

  lemma CancelFactor(a: real, x: real)
    requires a != 0.0 && a * x == 0.0
    ensures x == 0.0
  {
    assert x == (a * x) / a;
  }

  /** `a t = -b +- s` with `s^2 = b^2 - a c` solves `a t^2 + 2 b t + c = 0`. */
  lemma SolvesQuadratic(q: Quadratic, s: real, t: real)
    requires q.a != 0.0 && s * s == Discriminant(q)
    requires q.a * t == -q.b - s || q.a * t == -q.b + s
    ensures Eval(q, t) == 0.0
  {
    var u := q.a * t + q.b;
    assert u * u == s * s by {
      if u == s {
      } else {
        assert u == -s;
        assert u * u == (-s) * (-s);
      }
    }
    assert u * u == q.a * (q.a * (t * t)) + 2.0 * q.a * q.b * t + q.b * q.b;
    assert q.a * (q.a * (t * t) + 2.0 * q.b * t + q.c) == 0.0;
    CancelFactor(q.a, q.a * (t * t) + 2.0 * q.b * t + q.c);
  }

  lemma RootTimesA(sqrt: real -> real, q: Quadratic)
    requires q.a != 0.0
    ensures q.a * NearRoot(sqrt, q) == -q.b - sqrt(Discriminant(q))
    ensures q.a * FarRoot(sqrt, q) == -q.b + sqrt(Discriminant(q))
  {
  }

  /**
   * With an exact square root, the accepted point is at distance `radius`
   * from the center: `|p - center|^2 = radius^2`.
   */
  lemma ChosenPointOnSphere(sqrt: real -> real, r: Ray, center: Vec3, radius: real, tMin: real, tMax: real)
    requires ExactRoot(sqrt) && Aimed(r)
    ensures var t := ChooseRoot(sqrt, r, center, radius, tMin, tMax);
      t.Some? ==> SquaredLength(Sub(PointAt(r, t.value), center)) == radius * radius
  {
    var t := ChooseRoot(sqrt, r, center, radius, tMin, tMax);
    if t.Some? {
      var q := Coefficients(r, center, radius);
      assert Discriminant(q) > 0.0;
      var s := sqrt(Discriminant(q));
      assert s * s == Discriminant(q);
      assert q.a * t.value == -q.b - s || q.a * t.value == -q.b + s by {
        RootTimesA(sqrt, q);
        assert t.value == NearRoot(sqrt, q) || t.value == FarRoot(sqrt, q);
      }
      SolvesQuadratic(q, s, t.value);
      EvalIsDistance(r, center, radius, t.value);
    }
  }
}
