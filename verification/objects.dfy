/**
 * The scene of src/raytracer/object.rs: spheres and worlds (lists of boxed
 * objects, which may themselves be worlds) behind the `Object` trait, and
 * the `check_hit` protocol they share.
 *
 * `check_hit(r, t_min, t_max, &mut rec) -> bool` is modelled as a function
 * from the record passed in to the pair (returned flag, record afterwards).
 * The square root is a parameter `sqrt`; lemmas that depend on it say what
 * they assume of it.
 */
module Objects {
  import opened Wrappers
  import opened Vectors
  import opened Rays
  import opened Spheres

  /** The three materials a record can carry; their scattering is not modelled. */
  datatype Material =
    | Lambertian(albedo: Vec3)
    | Metal(albedo: Vec3, fuzz: real)
    | Dielectric(refIdx: real)

  /** `DEFAULT_MATERIAL`: black Lambertian. */
  const DefaultMaterial: Material := Lambertian(Zero)

  datatype HitRecord = HitRecord(t: real, p: Vec3, normal: Vec3, material: Material)

  /** `HitRecord::default()`: everything zero, with the default material. */
  const DefaultRecord: HitRecord := HitRecord(0.0, All(0.0), All(0.0), DefaultMaterial)

  datatype Sphere = Sphere(center: Vec3, radius: real, material: Material)

  /** A boxed `Object`: a sphere, or a world nested inside a world. */
  datatype Object = SphereObject(sphere: Sphere) | WorldObject(world: World)

  datatype World = World(objects: seq<Object>)

  /** Every sphere, however deeply nested, has a non-zero radius (the normal divides by it). */
  predicate WellFormed(o: Object)
    decreases o, 1
  {
    match o
    case SphereObject(s) => s.radius != 0.0
    case WorldObject(w) => WellFormedWorld(w)
  }

  predicate WellFormedWorld(w: World)
    decreases w, 0
  {
    forall i :: 0 <= i < |w.objects| ==> WellFormed(w.objects[i])
  }

  // ---- The container ----

  /** `World::new()`: no objects. */
  function NewWorld(): (w: World)
    ensures |w.objects| == 0 && WellFormedWorld(w)
  {
    World([])
  }

  /** `add_object`: the object goes at the end. */
  function AddObject(w: World, o: Object): (w': World)
    ensures |w'.objects| == |w.objects| + 1
    ensures w'.objects[|w.objects|] == o
    ensures forall i :: 0 <= i < |w.objects| ==> w'.objects[i] == w.objects[i]
  {
    World(w.objects + [o])
  }

  /** `pop_object`: the last object comes out, or `None` when there is none. */
  function PopObject(w: World): (res: (World, Option<Object>))
    ensures res.1.None? <==> |w.objects| == 0
    ensures res.1.None? ==> res.0 == w
    ensures res.1.Some? ==> AddObject(res.0, res.1.value) == w
  {
    if |w.objects| == 0 then (w, None)
    else (World(w.objects[..|w.objects| - 1]), Some(w.objects[|w.objects| - 1]))
  }

  /** Popping right after adding gives back the world and the object added. */
  lemma PopAfterAdd(w: World, o: Object)
    ensures PopObject(AddObject(w, o)) == (w, Some(o))
  {
    assert (w.objects + [o])[..|w.objects|] == w.objects;
  }

  /** Adding or popping keeps every sphere well formed. */
  lemma WellFormedKept(w: World, o: Object)
    requires WellFormedWorld(w)
    ensures WellFormed(o) ==> WellFormedWorld(AddObject(w, o))
    ensures WellFormedWorld(PopObject(w).0)
    ensures PopObject(w).1.Some? ==> WellFormed(PopObject(w).1.value)
  {
  }

  // ---- check_hit ----

  /**
   * `Sphere::check_hit`: on a hit, the record gets the root, the point at it,
   * the normal `(p - center) / radius` and the sphere's material; on a miss
   * the record is left alone.
   */
  function SphereHit(sqrt: real -> real, s: Sphere, r: Ray, tMin: real, tMax: real, rec: HitRecord)
    : (res: (bool, HitRecord))
    requires Aimed(r) && s.radius != 0.0
    ensures res.0 <==> ChooseRoot(sqrt, r, s.center, s.radius, tMin, tMax).Some?
    ensures !res.0 ==> res.1 == rec
    ensures res.0 ==> && res.1.t == ChooseRoot(sqrt, r, s.center, s.radius, tMin, tMax).value
                      && Inside(res.1.t, tMin, tMax)
                      && res.1.p == PointAt(r, res.1.t)
                      && res.1.normal == Div(Sub(res.1.p, s.center), s.radius)
                      && res.1.material == s.material
  {
    match ChooseRoot(sqrt, r, s.center, s.radius, tMin, tMax)
    case Some(t) =>
      var p := PointAt(r, t);
      (true, HitRecord(t, p, Div(Sub(p, s.center), s.radius), s.material))
    case None => (false, rec)
  }

  /** `check_hit` through the `Object` trait. */
  function ObjectHit(sqrt: real -> real, o: Object, r: Ray, tMin: real, tMax: real, rec: HitRecord)
    : (res: (bool, HitRecord))
    requires Aimed(r) && WellFormed(o)
    ensures !res.0 ==> res.1 == rec
    ensures res.0 ==> Inside(res.1.t, tMin, tMax)
    decreases o, 2
  {
    match o
    case SphereObject(s) => SphereHit(sqrt, s, r, tMin, tMax, rec)
    case WorldObject(w) => WorldHit(sqrt, w, r, tMin, tMax, rec)
  }

  /** `s` strictly decreases from front to back. */
  predicate StrictlyDecreasing(s: seq<real>) {
    forall i, j :: 0 <= i < j < |s| ==> s[i] > s[j]
  }

  /**
   * The local state of `World::check_hit` after its loop has visited the
   * first objects: `hit_anything`, `closest_so_far`, the scratch record
   * `temp`, the caller's `rec`, and (for the proofs) the `t` of every hit
   * accepted so far, in order.
   */
  datatype ScanState = ScanState(hitAnything: bool, closest: real, temp: HitRecord, rec: HitRecord, accepted: seq<real>)

  /**
   * The loop of `World::check_hit` over the first `k` objects. Each object is
   * asked with the caller's `t_min` and upper bound `closest_so_far`, which
   * starts at `t_max` and becomes the `t` of each accepted hit; an accepted
   * hit is copied field by field into `rec`.
   */
  function Scan(sqrt: real -> real, w: World, k: nat, r: Ray, tMin: real, tMax: real, rec: HitRecord)
    : (st: ScanState)
    requires Aimed(r) && WellFormedWorld(w) && k <= |w.objects|
    ensures st.hitAnything <==> |st.accepted| > 0
    ensures !st.hitAnything ==> st.rec == rec && st.closest == tMax && st.temp == DefaultRecord
    ensures st.hitAnything ==> st.rec == st.temp && st.closest == st.rec.t == st.accepted[|st.accepted| - 1]
    ensures StrictlyDecreasing(st.accepted)
    ensures forall i :: 0 <= i < |st.accepted| ==> Inside(st.accepted[i], tMin, tMax)
    decreases w, 0, k
  {
    if k == 0 then ScanState(false, tMax, DefaultRecord, rec, [])
    else
      var st := Scan(sqrt, w, k - 1, r, tMin, tMax, rec);
      var (hit, temp) := ObjectHit(sqrt, w.objects[k - 1], r, tMin, st.closest, st.temp);
      if hit then ScanState(true, temp.t, temp, temp, st.accepted + [temp.t])
      else ScanState(st.hitAnything, st.closest, temp, st.rec, st.accepted)
  }

  /** `impl Object for World`: whether anything was hit, and the record afterwards. */
  function WorldHit(sqrt: real -> real, w: World, r: Ray, tMin: real, tMax: real, rec: HitRecord)
    : (res: (bool, HitRecord))
    requires Aimed(r) && WellFormedWorld(w)
    ensures !res.0 ==> res.1 == rec
    ensures res.0 ==> Inside(res.1.t, tMin, tMax)
    decreases w, 1
  {
    var st := Scan(sqrt, w, |w.objects|, r, tMin, tMax, rec);
    (st.hitAnything, st.rec)
  }

  // ---- The closest hit, as a reference ----

  /** What an object reports when asked on its own with the full interval. */
  function Report(sqrt: real -> real, o: Object, r: Ray, tMin: real, tMax: real): (h: Option<HitRecord>)
    requires Aimed(r) && WellFormed(o)
    ensures h.Some? ==> Inside(h.value.t, tMin, tMax)
  {
    var (hit, rec) := ObjectHit(sqrt, o, r, tMin, tMax, DefaultRecord);
    if hit then Some(rec) else None
  }

  /**
   * Among the first `k` objects, each asked on its own with `(t_min, t_max)`,
   * the report with the smallest `t`; the earliest such object wins a tie.
   */
  function Closest(sqrt: real -> real, w: World, k: nat, r: Ray, tMin: real, tMax: real): (h: Option<HitRecord>)
    requires Aimed(r) && WellFormedWorld(w) && k <= |w.objects|
    ensures h.Some? ==> Inside(h.value.t, tMin, tMax)
  {
    if k == 0 then None
    else
      var earlier := Closest(sqrt, w, k - 1, r, tMin, tMax);
      match Report(sqrt, w.objects[k - 1], r, tMin, tMax)
      case None => earlier
      case Some(h) => if earlier.None? || h.t < earlier.value.t then Some(h) else earlier
  }

  /** Object `i` reports `h`, and every earlier report has a larger `t`. */
  predicate Earliest(sqrt: real -> real, w: World, i: nat, r: Ray, tMin: real, tMax: real, h: HitRecord)
    requires Aimed(r) && WellFormedWorld(w) && i < |w.objects|
  {
    && Report(sqrt, w.objects[i], r, tMin, tMax) == Some(h)
    && forall j :: 0 <= j < i && Report(sqrt, w.objects[j], r, tMin, tMax).Some? ==>
         h.t < Report(sqrt, w.objects[j], r, tMin, tMax).value.t
  }

  /**
   * `Closest` is what its description says: it is empty exactly when no
   * object reports a hit, and otherwise it is the report of some object whose
   * `t` no report undercuts and which no earlier report equals.
   */
  lemma {:induction false} ClosestIsLeast(sqrt: real -> real, w: World, k: nat, r: Ray, tMin: real, tMax: real)
    requires Aimed(r) && WellFormedWorld(w) && k <= |w.objects|
    ensures var h := Closest(sqrt, w, k, r, tMin, tMax);
      && (h.None? <==> forall j :: 0 <= j < k ==> Report(sqrt, w.objects[j], r, tMin, tMax).None?)
      && (h.Some? ==> forall j :: 0 <= j < k && Report(sqrt, w.objects[j], r, tMin, tMax).Some? ==>
            h.value.t <= Report(sqrt, w.objects[j], r, tMin, tMax).value.t)
      && (h.Some? ==> exists i :: 0 <= i < k && Earliest(sqrt, w, i, r, tMin, tMax, h.value))
    decreases k
  {
    if k > 0 {
      ClosestIsLeast(sqrt, w, k - 1, r, tMin, tMax);
      var earlier := Closest(sqrt, w, k - 1, r, tMin, tMax);
      var h := Closest(sqrt, w, k, r, tMin, tMax);
      var last := Report(sqrt, w.objects[k - 1], r, tMin, tMax);
      if h.Some? {
        forall j | 0 <= j < k && Report(sqrt, w.objects[j], r, tMin, tMax).Some?
          ensures h.value.t <= Report(sqrt, w.objects[j], r, tMin, tMax).value.t
        {
          if j < k - 1 {
            assert earlier.Some? && h.value.t <= earlier.value.t;
          } else {
            assert last.Some? && h.value.t <= last.value.t;
          }
        }
        if h == last && (earlier.None? || last.value.t < earlier.value.t) {
          assert Earliest(sqrt, w, k - 1, r, tMin, tMax, h.value);
        } else {
          var i :| 0 <= i < k - 1 && Earliest(sqrt, w, i, r, tMin, tMax, earlier.value);
          assert Earliest(sqrt, w, i, r, tMin, tMax, h.value);
        }
      }
    }
  }

  // ---- The scan finds the closest hit ----

  /** The outcome of asking with upper bound `bound` when the full-interval answer is `report`. */
  function Restrict(report: Option<HitRecord>, bound: real, rec: HitRecord): (bool, HitRecord)
  {
    if report.Some? && report.value.t < bound then (true, report.value) else (false, rec)
  }

  /**
   * Asking any object with a smaller upper bound `bound <= t_max` gives its
   * full-interval report if that lies below `bound`, and a miss (with the
   * record untouched) otherwise. In particular the record passed in matters
   * only on a miss.
   */
  lemma {:induction false} ObjectNarrowed(sqrt: real -> real, o: Object, r: Ray, tMin: real, tMax: real, bound: real, rec: HitRecord)
    requires NonNegativeRoot(sqrt) && Aimed(r) && WellFormed(o) && bound <= tMax
    ensures ObjectHit(sqrt, o, r, tMin, bound, rec) == Restrict(Report(sqrt, o, r, tMin, tMax), bound, rec)
    decreases o, 2
  {
    match o
    case SphereObject(s) =>
      ChooseRootNarrowed(sqrt, r, s.center, s.radius, tMin, tMax, bound);
    case WorldObject(w) =>
      WorldNarrowed(sqrt, w, r, tMin, tMax, bound, rec);
  }

  /** `ObjectNarrowed` for a nested world. */
  lemma {:induction false} WorldNarrowed(sqrt: real -> real, w: World, r: Ray, tMin: real, tMax: real, bound: real, rec: HitRecord)
    requires NonNegativeRoot(sqrt) && Aimed(r) && WellFormedWorld(w) && bound <= tMax
    ensures WorldHit(sqrt, w, r, tMin, bound, rec) == Restrict(Report(sqrt, WorldObject(w), r, tMin, tMax), bound, rec)
    decreases w, 1
  {
    var n := |w.objects|;
    ScanMatchesClosest(sqrt, w, n, r, tMin, tMax, bound, rec);
    ScanMatchesClosest(sqrt, w, n, r, tMin, tMax, tMax, DefaultRecord);
    var h := Closest(sqrt, w, n, r, tMin, tMax);
    assert ObjectHit(sqrt, WorldObject(w), r, tMin, tMax, DefaultRecord) == WorldHit(sqrt, w, r, tMin, tMax, DefaultRecord);
    assert WorldHit(sqrt, w, r, tMin, tMax, DefaultRecord).0 <==> h.Some?;
    assert Report(sqrt, WorldObject(w), r, tMin, tMax) == h;
  }

  /**
   * After `k` objects, the scan with upper bound `bound <= t_max` has hit
   * exactly when the closest full-interval report lies below `bound`, and
   * then the caller's record holds that report.
   */
  lemma {:induction false} ScanMatchesClosest(sqrt: real -> real, w: World, k: nat, r: Ray, tMin: real, tMax: real, bound: real, rec: HitRecord)
    requires NonNegativeRoot(sqrt) && Aimed(r) && WellFormedWorld(w) && k <= |w.objects| && bound <= tMax
    ensures var st := Scan(sqrt, w, k, r, tMin, bound, rec);
      var h := Closest(sqrt, w, k, r, tMin, tMax);
      && (st.hitAnything <==> h.Some? && h.value.t < bound)
      && (st.hitAnything ==> st.rec == h.value)
    decreases w, 0, k
  {
    if k > 0 {
      ScanMatchesClosest(sqrt, w, k - 1, r, tMin, tMax, bound, rec);
      var st := Scan(sqrt, w, k - 1, r, tMin, bound, rec);
      var earlier := Closest(sqrt, w, k - 1, r, tMin, tMax);
      assert st.closest == if st.hitAnything then earlier.value.t else bound;
      ObjectNarrowed(sqrt, w.objects[k - 1], r, tMin, tMax, st.closest, st.temp);
      var rep := Report(sqrt, w.objects[k - 1], r, tMin, tMax);
      var res := ObjectHit(sqrt, w.objects[k - 1], r, tMin, st.closest, st.temp);
      assert res.0 <==> rep.Some? && rep.value.t < st.closest;
      assert res.0 ==> res.1 == rep.value;
    }
  }

  /**
   * `World::check_hit` returns true exactly when some object, asked on its
   * own with `(t_min, t_max)`, reports a hit; the record then holds the
   * report with the smallest `t` (the earliest object among equals), and is
   * untouched otherwise. This needs the square root to be non-negative: it
   * is what puts the near root before the far one.
   */
  lemma WorldHitIsClosest(sqrt: real -> real, w: World, r: Ray, tMin: real, tMax: real, rec: HitRecord)
    requires NonNegativeRoot(sqrt) && Aimed(r) && WellFormedWorld(w)
    ensures var h := Closest(sqrt, w, |w.objects|, r, tMin, tMax);
      WorldHit(sqrt, w, r, tMin, tMax, rec) == if h.Some? then (true, h.value) else (false, rec)
  {
    ScanMatchesClosest(sqrt, w, |w.objects|, r, tMin, tMax, tMax, rec);
  }

  /** A world hits exactly when one of its objects hits on its own. */
  lemma WorldHitsIffSomeObjectHits(sqrt: real -> real, w: World, r: Ray, tMin: real, tMax: real, rec: HitRecord)
    requires NonNegativeRoot(sqrt) && Aimed(r) && WellFormedWorld(w)
    ensures WorldHit(sqrt, w, r, tMin, tMax, rec).0 <==>
      exists i :: 0 <= i < |w.objects| && ObjectHit(sqrt, w.objects[i], r, tMin, tMax, rec).0
  {
    WorldHitIsClosest(sqrt, w, r, tMin, tMax, rec);
    ClosestIsLeast(sqrt, w, |w.objects|, r, tMin, tMax);
    forall i | 0 <= i < |w.objects|
      ensures ObjectHit(sqrt, w.objects[i], r, tMin, tMax, rec).0 <==> Report(sqrt, w.objects[i], r, tMin, tMax).Some?
    {
      ObjectNarrowed(sqrt, w.objects[i], r, tMin, tMax, tMax, rec);
    }
  }
}
