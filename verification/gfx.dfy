/**
 * The self-contained renderer of src/gfx.rs: its own spheres, a
 * `HitableList` of `Shapes` (spheres or nested lists), a record without a
 * material, and a fixed camera.
 *
 * Its sphere test is the same quadratic as in `Objects`. Its list differs
 * from `Objects.World` in two ways: it ignores the `t_min` it is given and
 * asks every child with `0.0` instead, and it copies only `t`, `p` and
 * `normal` into the caller's record. `ListMatchesWorld` shows that, these two
 * points aside, a list behaves exactly as the world with the same spheres
 * (each with the default material) asked with `t_min = 0`.
 */
module Gfx {
  import opened Wrappers
  import opened Vectors
  import opened Rays
  import opened Spheres
  import Objects

  datatype GfxRecord = GfxRecord(t: real, p: Vec3, normal: Vec3)

  /** The zeroed record `HitableList::check_hit` starts its scratch copy with. */
  const EmptyRecord: GfxRecord := GfxRecord(0.0, Zero, Zero)

  datatype GfxSphere = GfxSphere(center: Vec3, radius: real)

  datatype Shapes = SphereShape(sphere: GfxSphere) | ListShape(list: HitableList)

  datatype HitableList = HitableList(list: seq<Shapes>)

  /** Every sphere, however deeply nested, has a non-zero radius. */
  predicate ShapeWellFormed(s: Shapes)
    decreases s, 1
  {
    match s
    case SphereShape(sp) => sp.radius != 0.0
    case ListShape(l) => ListWellFormed(l)
  }

  predicate ListWellFormed(l: HitableList)
    decreases l, 0
  {
    forall i :: 0 <= i < |l.list| ==> ShapeWellFormed(l.list[i])
  }

  // ---- check_hit ----

  /** `Sphere::check_hit`: the nearer root in range, or the farther one, or a miss. */
  function GfxSphereHit(sqrt: real -> real, s: GfxSphere, r: Ray, tMin: real, tMax: real, rec: GfxRecord)
    : (res: (bool, GfxRecord))
    requires Aimed(r) && s.radius != 0.0
    ensures res.0 <==> ChooseRoot(sqrt, r, s.center, s.radius, tMin, tMax).Some?
    ensures !res.0 ==> res.1 == rec
    ensures res.0 ==> && res.1.t == ChooseRoot(sqrt, r, s.center, s.radius, tMin, tMax).value
                      && Inside(res.1.t, tMin, tMax)
                      && res.1.p == PointAt(r, res.1.t)
                      && res.1.normal == Div(Sub(res.1.p, s.center), s.radius)
  {
    match ChooseRoot(sqrt, r, s.center, s.radius, tMin, tMax)
    case Some(t) =>
      var p := PointAt(r, t);
      (true, GfxRecord(t, p, Div(Sub(p, s.center), s.radius)))
    case None => (false, rec)
  }

  /** The `match` on `Shapes` inside the list's loop. */
  function ShapeHit(sqrt: real -> real, s: Shapes, r: Ray, tMin: real, tMax: real, rec: GfxRecord)
    : (res: (bool, GfxRecord))
    requires Aimed(r) && ShapeWellFormed(s)
    ensures !res.0 ==> res.1 == rec
    ensures res.0 ==> res.1.t < tMax
    ensures res.0 && s.SphereShape? ==> tMin < res.1.t
    ensures res.0 && s.ListShape? ==> 0.0 < res.1.t
    decreases s, 2
  {
    match s
    case SphereShape(sp) => GfxSphereHit(sqrt, sp, r, tMin, tMax, rec)
    case ListShape(l) => ListHit(sqrt, l, r, tMin, tMax, rec)
  }

  /** `hit_anything`, `closest_so_far`, `temp_rec` and the caller's `rec` after some children. */
  datatype ListState = ListState(hitAnything: bool, closest: real, temp: GfxRecord, rec: GfxRecord)

  /**
   * The loop of `HitableList::check_hit` over the first `k` children, each
   * asked with `0.0` and `closest_so_far`.
   */
  function ListScan(sqrt: real -> real, l: HitableList, k: nat, r: Ray, tMax: real, rec: GfxRecord)
    : (st: ListState)
    requires Aimed(r) && ListWellFormed(l) && k <= |l.list|
    ensures !st.hitAnything ==> st.rec == rec && st.closest == tMax && st.temp == EmptyRecord
    ensures st.hitAnything ==> st.rec == st.temp && 0.0 < st.closest == st.rec.t < tMax
    decreases l, 0, k
  {
    if k == 0 then ListState(false, tMax, EmptyRecord, rec)
    else
      var st := ListScan(sqrt, l, k - 1, r, tMax, rec);
      var (hit, temp) := ShapeHit(sqrt, l.list[k - 1], r, 0.0, st.closest, st.temp);
      if hit then ListState(true, temp.t, temp, GfxRecord(temp.t, temp.p, temp.normal))
      else ListState(st.hitAnything, st.closest, temp, st.rec)
  }

  /** `impl Hitable for HitableList`; `_t_min` is not used. */
  function ListHit(sqrt: real -> real, l: HitableList, r: Ray, tMin: real, tMax: real, rec: GfxRecord)
    : (res: (bool, GfxRecord))
    requires Aimed(r) && ListWellFormed(l)
    ensures !res.0 ==> res.1 == rec
    ensures res.0 ==> 0.0 < res.1.t < tMax
    decreases l, 1
  {
    var st := ListScan(sqrt, l, |l.list|, r, tMax, rec);
    (st.hitAnything, st.rec)
  }

  /** The list's answer does not depend on the `t_min` it is given. */
  lemma ListIgnoresTMin(sqrt: real -> real, l: HitableList, r: Ray, tMin: real, tMin': real, tMax: real, rec: GfxRecord)
    requires Aimed(r) && ListWellFormed(l)
    ensures ListHit(sqrt, l, r, tMin, tMax, rec) == ListHit(sqrt, l, r, tMin', tMax, rec)
  {
  }

  // ---- The list is a world asked from t = 0 ----

  /** The same shape on the `Objects` side; every sphere gets the default material. */
  function ToObject(s: Shapes): (o: Objects.Object)
    ensures Objects.WellFormed(o) <==> ShapeWellFormed(s)
    decreases s, 1
  {
    match s
    case SphereShape(sp) => Objects.SphereObject(Objects.Sphere(sp.center, sp.radius, Objects.DefaultMaterial))
    case ListShape(l) => Objects.WorldObject(ToWorld(l))
  }

  function ToWorld(l: HitableList): (w: Objects.World)
    ensures |w.objects| == |l.list|
    ensures forall i :: 0 <= i < |l.list| ==> w.objects[i] == ToObject(l.list[i])
    ensures Objects.WellFormedWorld(w) <==> ListWellFormed(l)
    decreases l, 0
  {
    Objects.World(seq(|l.list|, i requires 0 <= i < |l.list| => ToObject(l.list[i])))
  }

  /** A record without a material, as a record with the default one. */
  function Lift(rec: GfxRecord): Objects.HitRecord {
    Objects.HitRecord(rec.t, rec.p, rec.normal, Objects.DefaultMaterial)
  }

  function LiftResult(res: (bool, GfxRecord)): (bool, Objects.HitRecord) {
    (res.0, Lift(res.1))
  }

  /**
   * A shape answers as its `ToObject` image does, material aside: a sphere with
   * any `t_min`, a list when `t_min` is `0.0` (the only value a list passes to
   * its children).
   */
  lemma {:induction false} ShapeMatchesObject(sqrt: real -> real, s: Shapes, r: Ray, tMin: real, tMax: real, rec: GfxRecord)
    requires Aimed(r) && ShapeWellFormed(s) && (s.SphereShape? || tMin == 0.0)
    ensures Objects.ObjectHit(sqrt, ToObject(s), r, tMin, tMax, Lift(rec)) == LiftResult(ShapeHit(sqrt, s, r, tMin, tMax, rec))
    decreases s, 1
  {
    match s
    case SphereShape(sp) =>
    case ListShape(l) => ListMatchesWorld(sqrt, l, r, tMax, rec);
  }

  /** A list answers as its `ToWorld` image asked with `t_min = 0`. */
  lemma {:induction false} ListMatchesWorld(sqrt: real -> real, l: HitableList, r: Ray, tMax: real, rec: GfxRecord)
    requires Aimed(r) && ListWellFormed(l)
    ensures Objects.WorldHit(sqrt, ToWorld(l), r, 0.0, tMax, Lift(rec)) == LiftResult(ListHit(sqrt, l, r, 0.0, tMax, rec))
    decreases l, 1
  {
    ScanMatchesWorld(sqrt, l, |l.list|, r, tMax, rec);
  }

  lemma {:induction false} ScanMatchesWorld(sqrt: real -> real, l: HitableList, k: nat, r: Ray, tMax: real, rec: GfxRecord)
    requires Aimed(r) && ListWellFormed(l) && k <= |l.list|
    ensures var st := ListScan(sqrt, l, k, r, tMax, rec);
      var ws := Objects.Scan(sqrt, ToWorld(l), k, r, 0.0, tMax, Lift(rec));
      && ws.hitAnything == st.hitAnything && ws.closest == st.closest
      && ws.temp == Lift(st.temp) && ws.rec == Lift(st.rec)
    decreases l, 0, k
  {
    if k > 0 {
      ScanMatchesWorld(sqrt, l, k - 1, r, tMax, rec);
      var st := ListScan(sqrt, l, k - 1, r, tMax, rec);
      var ws := Objects.Scan(sqrt, ToWorld(l), k - 1, r, 0.0, tMax, Lift(rec));
      ShapeMatchesObject(sqrt, l.list[k - 1], r, 0.0, st.closest, st.temp);
      var res := ShapeHit(sqrt, l.list[k - 1], r, 0.0, st.closest, st.temp);
      var wres := Objects.ObjectHit(sqrt, ToWorld(l).objects[k - 1], r, 0.0, ws.closest, ws.temp);
      assert wres == LiftResult(res);
      var st' := ListScan(sqrt, l, k, r, tMax, rec);
      var ws' := Objects.Scan(sqrt, ToWorld(l), k, r, 0.0, tMax, Lift(rec));
      if res.0 {
        assert st'.rec == res.1 && st'.temp == res.1;
        assert ws'.rec == wres.1 && ws'.temp == wres.1;
      } else {
        assert st' == ListState(st.hitAnything, st.closest, res.1, st.rec);
        assert ws'.rec == ws.rec && ws'.temp == wres.1;
      }
    }
  }

  /**
   * With a non-negative square root, the list hits exactly when one of its
   * children, asked on its own from `t = 0`, reports a hit, and the caller's
   * record then gets the closest such report (the earliest child among
   * equals); whatever `t_min` the caller passed plays no part.
   */
  lemma ListHitIsClosest(sqrt: real -> real, l: HitableList, r: Ray, tMin: real, tMax: real, rec: GfxRecord)
    requires NonNegativeRoot(sqrt) && Aimed(r) && ListWellFormed(l)
    ensures var h := Objects.Closest(sqrt, ToWorld(l), |l.list|, r, 0.0, tMax);
      LiftResult(ListHit(sqrt, l, r, tMin, tMax, rec)) == if h.Some? then (true, h.value) else (false, Lift(rec))
  {
    ListMatchesWorld(sqrt, l, r, tMax, rec);
    Objects.WorldHitIsClosest(sqrt, ToWorld(l), r, 0.0, tMax, Lift(rec));
  }

  // ---- Camera ----

  datatype Camera = Camera(lowerLeftCorner: Vec3, horizontal: Vec3, vertical: Vec3, origin: Vec3)

  /** `Camera::new()`: at the origin, looking at the 4 x 2 screen on the plane `z = -1`. */
  const DefaultCamera: Camera :=
    Camera(Vec3(-2.0, -1.0, -1.0), Vec3(4.0, 0.0, 0.0), Vec3(0.0, 2.0, 0.0), Vec3(0.0, 0.0, 0.0))

  /** `get_ray(u, v)`: from the origin towards `lower_left_corner + u horizontal + v vertical`. */
  function GetRay(c: Camera, u: real, v: real): (r: Ray)
    ensures r.origin == c.origin
    ensures Sub(r.direction, c.lowerLeftCorner) == Add(Scale(c.horizontal, u), Scale(c.vertical, v))
  {
    Ray(c.origin, Add(Add(c.lowerLeftCorner, Scale(c.horizontal, u)), Scale(c.vertical, v)))
  }

  /**
   * The default camera's rays leave the origin towards the point
   * `(4u - 2, 2v - 1, -1)` of the screen: `(0, 0)` is its lower left corner,
   * `(1, 1)` its upper right one, and `(1/2, 1/2)` looks straight down `-z`.
   */
  lemma DefaultCameraRays(u: real, v: real)
    ensures GetRay(DefaultCamera, u, v) == Ray(Zero, Vec3(4.0 * u - 2.0, 2.0 * v - 1.0, -1.0))
  {
    var c := DefaultCamera;
    assert Scale(c.horizontal, u) == Vec3(4.0 * u, 0.0, 0.0);
    assert Scale(c.vertical, v) == Vec3(0.0, 2.0 * v, 0.0);
  }

  /**
   * A ray towards any point of a plane `z = -1`, such as every ray of the
   * default camera, has a positive `a`.
   */
  lemma ScreenRayAimed(r: Ray)
    requires r.direction.z == -1.0
    ensures Aimed(r)
  {
    SquareNonNegative(r.direction.x);
    SquareNonNegative(r.direction.y);
  }

  // ---- A worked scene ----

  /**
   * The sphere of radius 1/2 centred at `(0, 0, -1)`, seen from the origin
   * straight down `-z` (the middle of the default camera's screen, see
   * `DefaultCameraRays`), is hit half a unit away, at its front point
   * `(0, 0, -1/2)`, with the normal `(0, 0, 1)` facing the camera. Only the
   * square root of `1/4` matters. With `t_min = 0` and `SingleSphereList`,
   * the same hit comes back through a list holding just that sphere.
   */
  lemma CenterRayHitsSphere(sqrt: real -> real, sphere: GfxSphere, r: Ray, tMin: real, tMax: real)
    requires sphere == GfxSphere(Vec3(0.0, 0.0, -1.0), 0.5) && r == Ray(Zero, Vec3(0.0, 0.0, -1.0))
    requires sqrt(0.25) == 0.5 && tMin < 0.5 < tMax
    ensures Aimed(r)
    ensures GfxSphereHit(sqrt, sphere, r, tMin, tMax, EmptyRecord)
         == (true, GfxRecord(0.5, Vec3(0.0, 0.0, -0.5), Vec3(0.0, 0.0, 1.0)))
  {
    CenterRoot(sqrt, sphere, r, tMin, tMax);
    CenterPoint(sphere, r);
  }

  /**
   * A list holding one sphere answers as that sphere asked from `t = 0` with
   * a zeroed scratch record, whatever `t_min` it was given.
   */
  lemma SingleSphereList(sqrt: real -> real, sphere: GfxSphere, l: HitableList, r: Ray, tMin: real, tMax: real, rec: GfxRecord)
    requires l == HitableList([SphereShape(sphere)]) && sphere.radius != 0.0 && Aimed(r)
    ensures ListWellFormed(l)
    ensures var res := GfxSphereHit(sqrt, sphere, r, 0.0, tMax, EmptyRecord);
      ListHit(sqrt, l, r, tMin, tMax, rec) == if res.0 then res else (false, rec)
  {
    assert |l.list| == 1 && l.list[0] == SphereShape(sphere);
    var st0 := ListScan(sqrt, l, 0, r, tMax, rec);
    assert st0 == ListState(false, tMax, EmptyRecord, rec);
    var res := GfxSphereHit(sqrt, sphere, r, 0.0, tMax, EmptyRecord);
    assert ShapeHit(sqrt, l.list[0], r, 0.0, st0.closest, st0.temp) == res;
    var st := ListScan(sqrt, l, 1, r, tMax, rec);
    assert st.hitAnything == res.0;
    assert res.0 ==> st.rec == GfxRecord(res.1.t, res.1.p, res.1.normal);
  }

  lemma CenterRoot(sqrt: real -> real, sphere: GfxSphere, r: Ray, tMin: real, tMax: real)
    requires sphere == GfxSphere(Vec3(0.0, 0.0, -1.0), 0.5) && r == Ray(Zero, Vec3(0.0, 0.0, -1.0))
    requires sqrt(0.25) == 0.5 && tMin < 0.5 < tMax
    ensures Aimed(r)
    ensures ChooseRoot(sqrt, r, sphere.center, sphere.radius, tMin, tMax) == Some(0.5)
  {
    var q := Coefficients(r, sphere.center, sphere.radius);
    assert q == Quadratic(1.0, -1.0, 0.75);
    assert Discriminant(q) == 0.25;
    assert NearRoot(sqrt, q) == 0.5;
  }

  lemma CenterPoint(sphere: GfxSphere, r: Ray)
    requires sphere == GfxSphere(Vec3(0.0, 0.0, -1.0), 0.5) && r == Ray(Zero, Vec3(0.0, 0.0, -1.0))
    ensures PointAt(r, 0.5) == Vec3(0.0, 0.0, -0.5)
    ensures Div(Sub(PointAt(r, 0.5), sphere.center), sphere.radius) == Vec3(0.0, 0.0, 1.0)
  {
  }
}
