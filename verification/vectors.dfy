/**
 * The three-component vector of the raytracer, over the reals.
 *
 * The repository has two copies of this value type: the method-style one of
 * src/raytracer/math/vec3.rs (`add`, `add_by_vec`, ... with in-place `_eq`
 * twins) and the operator-style one of src/gfx.rs (`+`, `-`, `*`, `/`, unary
 * `-`). Both have the same three fields and the same arithmetic, so both are
 * this one datatype. The compound assignments of src/gfx.rs (`+=`, `-=`
 * between vectors, `*=`, `/=` by a scalar) update the fields one by one just
 * as the `_eq` twins do, so they are `AddByVecEq`, `SubByVecEq`, `MulEq` and
 * `DivEq` below.
 */
module Vectors {
  import opened Wrappers
  import opened Decimal

  datatype Vec3 = Vec3(x: real, y: real, z: real)

  const Zero := Vec3(0.0, 0.0, 0.0)

  // ---- Components ----

  /** `v[i]`: component `i`; any index above 2 is a panic with this message. */
  function Index(v: Vec3, i: nat): (r: Result<real, string>)
    ensures r.Success? <==> i < 3
    ensures r.Failure? ==> r.error == "Vec3 index out of bounds: " + NatToString(i)
  {
    match i
    case 0 => Success(v.x)
    case 1 => Success(v.y)
    case 2 => Success(v.z)
    case _ => Failure("Vec3 index out of bounds: " + NatToString(i))
  }

  /** `v[i] = value` through `IndexMut`: the vector afterwards, or the panic. */
  function SetIndex(v: Vec3, i: nat, value: real): (r: Result<Vec3, string>)
    ensures r.Success? <==> i < 3
    ensures r.Success? ==> Index(r.value, i) == Success(value)
    ensures r.Success? ==> forall j :: 0 <= j < 3 && j != i ==> Index(r.value, j) == Index(v, j)
    ensures r.Failure? ==> r.error == Index(v, i).error
  {
    match i
    case 0 => Success(v.(x := value))
    case 1 => Success(v.(y := value))
    case 2 => Success(v.(z := value))
    case _ => Failure("Vec3 index out of bounds: " + NatToString(i))
  }

  /** A vector is determined by what its three indices read. */
  lemma Extensionality(a: Vec3, b: Vec3)
    requires forall i :: 0 <= i < 3 ==> Index(a, i) == Index(b, i)
    ensures a == b
  {
    assert Index(a, 0) == Index(b, 0);
    assert Index(a, 1) == Index(b, 1);
    assert Index(a, 2) == Index(b, 2);
  }

  /** Writing back the component just read leaves the vector as it was. */
  lemma SetIndexOwnValue(v: Vec3, i: nat)
    requires i < 3
    ensures SetIndex(v, i, Index(v, i).value) == Success(v)
  {
  }

  // ---- Construction ----

  /** `Vec3::new(x, y, z)`, which also stands for the `vec3!` macro of src/gfx.rs. */
  function New(x: real, y: real, z: real): (v: Vec3)
    ensures Index(v, 0) == Success(x) && Index(v, 1) == Success(y) && Index(v, 2) == Success(z)
  {
    Vec3(x, y, z)
  }

  /** `Vec3::all(k)`: every component is `k`. */
  function All(k: real): (v: Vec3)
    ensures forall i :: 0 <= i < 3 ==> Index(v, i) == Success(k)
  {
    Vec3(k, k, k)
  }

  /** `copy()`: a fresh vector equal to the original. */
  function Copy(v: Vec3): (c: Vec3)
    ensures c == v
  {
    Vec3(v.x, v.y, v.z)
  }

  // ---- Products ----

  /** `dot` (and the free function `dot_product`, which forwards to it). */
  function Dot(a: Vec3, b: Vec3): (r: real)
    ensures r == Index(a, 0).value * Index(b, 0).value
               + Index(a, 1).value * Index(b, 1).value
               + Index(a, 2).value * Index(b, 2).value
  {
    a.x * b.x + a.y * b.y + a.z * b.z
  }

  /** `cross` (and the free function `cross_product`, which forwards to it). */
  function Cross(a: Vec3, b: Vec3): (c: Vec3)
    ensures Index(c, 0).value == Index(a, 1).value * Index(b, 2).value - Index(a, 2).value * Index(b, 1).value
    ensures Index(c, 1).value == Index(a, 2).value * Index(b, 0).value - Index(a, 0).value * Index(b, 2).value
    ensures Index(c, 2).value == Index(a, 0).value * Index(b, 1).value - Index(a, 1).value * Index(b, 0).value
  {
    Vec3(a.y * b.z - a.z * b.y, a.z * b.x - a.x * b.z, a.x * b.y - a.y * b.x)
  }

  /** `squared_length()`: the sum of the squared components. */
  function SquaredLength(v: Vec3): (r: real)
    ensures r == Index(v, 0).value * Index(v, 0).value
               + Index(v, 1).value * Index(v, 1).value
               + Index(v, 2).value * Index(v, 2).value
  {
    v.x * v.x + v.y * v.y + v.z * v.z
  }

  /** `squared_length()` is the vector's dot product with itself, and never negative. */
  lemma SquaredLengthIsSelfDot(v: Vec3)
    ensures SquaredLength(v) == Dot(v, v)
    ensures SquaredLength(v) >= 0.0
  {
    SquareNonNegative(v.x);
    SquareNonNegative(v.y);
    SquareNonNegative(v.z);
  }

  lemma SquareNonNegative(r: real)
    ensures r * r >= 0.0
  {
    if r < 0.0 {
      var m := -r;
      assert m * m > 0.0;
      assert r * r == m * m;
    }
  }

  lemma DotSymmetric(a: Vec3, b: Vec3)
    ensures Dot(a, b) == Dot(b, a)
  {
  }

  /** The cross product is perpendicular to both factors. */
  lemma CrossOrthogonal(a: Vec3, b: Vec3)
    ensures Dot(Cross(a, b), a) == 0.0 && Dot(Cross(a, b), b) == 0.0
  {
    var c := Cross(a, b);
    assert Dot(c, a) == a.x * (a.y * b.z - a.z * b.y) + a.y * (a.z * b.x - a.x * b.z) + a.z * (a.x * b.y - a.y * b.x);
    assert Dot(c, b) == b.x * (a.y * b.z - a.z * b.y) + b.y * (a.z * b.x - a.x * b.z) + b.z * (a.x * b.y - a.y * b.x);
  }

  /** Swapping the factors of the cross product negates it. */
  lemma CrossAntisymmetric(a: Vec3, b: Vec3)
    ensures Cross(b, a) == Neg(Cross(a, b))
  {
  }

  // ---- Component-wise arithmetic ----

  /** `add(k)`: `k` added to every component. */
  function AddScalar(v: Vec3, k: real): (r: Vec3)
    ensures forall i :: 0 <= i < 3 ==> Index(r, i).value == Index(v, i).value + k
  {
    Vec3(v.x + k, v.y + k, v.z + k)
  }

  /** `add_by_vec`, and `+` of src/gfx.rs. */
  function Add(a: Vec3, b: Vec3): (r: Vec3)
    ensures forall i :: 0 <= i < 3 ==> Index(r, i).value == Index(a, i).value + Index(b, i).value
  {
    Vec3(a.x + b.x, a.y + b.y, a.z + b.z)
  }

  /** `sub(k)`: `k` subtracted from every component. */
  function SubScalar(v: Vec3, k: real): (r: Vec3)
    ensures forall i :: 0 <= i < 3 ==> Index(r, i).value == Index(v, i).value - k
  {
    Vec3(v.x - k, v.y - k, v.z - k)
  }

  /** `sub_by_vec`, and binary `-` of src/gfx.rs. */
  function Sub(a: Vec3, b: Vec3): (r: Vec3)
    ensures forall i :: 0 <= i < 3 ==> Index(r, i).value == Index(a, i).value - Index(b, i).value
  {
    Vec3(a.x - b.x, a.y - b.y, a.z - b.z)
  }

  /** `mul(k)`, and `* k` of src/gfx.rs. */
  function Scale(v: Vec3, k: real): (r: Vec3)
    ensures forall i :: 0 <= i < 3 ==> Index(r, i).value == Index(v, i).value * k
  {
    Vec3(v.x * k, v.y * k, v.z * k)
  }

  /** `mul_by_vec`: the component-wise product. */
  function MulByVec(a: Vec3, b: Vec3): (r: Vec3)
    ensures forall i :: 0 <= i < 3 ==> Index(r, i).value == Index(a, i).value * Index(b, i).value
  {
    Vec3(a.x * b.x, a.y * b.y, a.z * b.z)
  }

  /** `div(k)`, and `/ k` of src/gfx.rs. */
  function Div(v: Vec3, k: real): (r: Vec3)
    requires k != 0.0
    ensures forall i :: 0 <= i < 3 ==> Index(r, i).value == Index(v, i).value / k
  {
    Vec3(v.x / k, v.y / k, v.z / k)
  }

  predicate NoZeroComponent(v: Vec3) {
    v.x != 0.0 && v.y != 0.0 && v.z != 0.0
  }

  /** `div_by_vec`: the component-wise quotient. */
  function DivByVec(a: Vec3, b: Vec3): (r: Vec3)
    requires NoZeroComponent(b)
    ensures forall i :: 0 <= i < 3 ==> Index(r, i).value == Index(a, i).value / Index(b, i).value
  {
    Vec3(a.x / b.x, a.y / b.y, a.z / b.z)
  }

  /** `neg()`, and unary `-` of src/gfx.rs. */
  function Neg(v: Vec3): (r: Vec3)
    ensures forall i :: 0 <= i < 3 ==> Index(r, i).value == -Index(v, i).value
  {
    Vec3(-v.x, -v.y, -v.z)
  }

  // ---- Laws tying the operations together ----

  /** Adding and subtracting the same scalar, or the same vector, cancel. */
  lemma AddSubInverse(v: Vec3, w: Vec3, k: real)
    ensures SubScalar(AddScalar(v, k), k) == v && AddScalar(SubScalar(v, k), k) == v
    ensures Sub(Add(v, w), w) == v && Add(Sub(v, w), w) == v
  {
  }

  /** Subtracting a vector is adding its negation; negation undoes itself. */
  lemma SubIsAddNeg(v: Vec3, w: Vec3)
    ensures Sub(v, w) == Add(v, Neg(w))
    ensures Neg(Neg(v)) == v
    ensures Add(v, Neg(v)) == Zero
  {
  }

  /** Adding a scalar is adding the vector with that scalar in every component. */
  lemma AddScalarIsAddAll(v: Vec3, k: real)
    ensures AddScalar(v, k) == Add(v, All(k)) && SubScalar(v, k) == Sub(v, All(k))
  {
  }

  /** Scaling and dividing by the same non-zero number cancel. */
  lemma ScaleDivInverse(v: Vec3, k: real)
    requires k != 0.0
    ensures Div(Scale(v, k), k) == v && Scale(Div(v, k), k) == v
  {
  }

  /** Component-wise multiplication and division by the same vector cancel. */
  lemma MulDivByVecInverse(v: Vec3, w: Vec3)
    requires NoZeroComponent(w)
    ensures DivByVec(MulByVec(v, w), w) == v && MulByVec(DivByVec(v, w), w) == v
  {
  }

  /** Scaling is component-wise multiplication by `all(k)`; it scales dot products. */
  lemma ScaleLaws(v: Vec3, w: Vec3, k: real)
    ensures Scale(v, k) == MulByVec(v, All(k))
    ensures Dot(Scale(v, k), w) == k * Dot(v, w)
    ensures Neg(v) == Scale(v, -1.0)
  {
  }

  /** The dot product distributes over vector addition and subtraction. */
  lemma DotDistributes(u: Vec3, v: Vec3, w: Vec3)
    ensures Dot(Add(u, v), w) == Dot(u, w) + Dot(v, w)
    ensures Dot(Sub(u, v), w) == Dot(u, w) - Dot(v, w)
  {
  }

  /** Squared length of a sum, expanded. */
  lemma SquaredLengthOfSum(u: Vec3, v: Vec3, t: real)
    ensures SquaredLength(Add(u, Scale(v, t))) == SquaredLength(u) + 2.0 * t * Dot(u, v) + t * t * SquaredLength(v)
  {
    SquareOfSum(u.x, v.x, t);
    SquareOfSum(u.y, v.y, t);
    SquareOfSum(u.z, v.z, t);
  }

  lemma SquareOfSum(a: real, b: real, t: real)
    ensures (a + b * t) * (a + b * t) == a * a + 2.0 * t * (a * b) + t * t * (b * b)
  {
  }

  // ---- The in-place twins of src/raytracer/math/vec3.rs ----
  // Each writes the three fields one after the other, as the source does, and
  // ends equal to what its copying counterpart returns.

  method AddEq(v: Vec3, k: real) returns (v': Vec3)
    ensures v' == AddScalar(v, k)
  {
    v' := v;
    v' := v'.(x := v'.x + k);
    v' := v'.(y := v'.y + k);
    v' := v'.(z := v'.z + k);
  }

  method AddByVecEq(v: Vec3, other: Vec3) returns (v': Vec3)
    ensures v' == Add(v, other)
  {
    v' := v;
    v' := v'.(x := v'.x + other.x);
    v' := v'.(y := v'.y + other.y);
    v' := v'.(z := v'.z + other.z);
  }

  method SubEq(v: Vec3, k: real) returns (v': Vec3)
    ensures v' == SubScalar(v, k)
  {
    v' := v;
    v' := v'.(x := v'.x - k);
    v' := v'.(y := v'.y - k);
    v' := v'.(z := v'.z - k);
  }

  method SubByVecEq(v: Vec3, other: Vec3) returns (v': Vec3)
    ensures v' == Sub(v, other)
  {
    v' := v;
    v' := v'.(x := v'.x - other.x);
    v' := v'.(y := v'.y - other.y);
    v' := v'.(z := v'.z - other.z);
  }

  method DivEq(v: Vec3, k: real) returns (v': Vec3)
    requires k != 0.0
    ensures v' == Div(v, k)
  {
    v' := v;
    v' := v'.(x := v'.x / k);
    v' := v'.(y := v'.y / k);
    v' := v'.(z := v'.z / k);
  }

  method DivByVecEq(v: Vec3, other: Vec3) returns (v': Vec3)
    requires NoZeroComponent(other)
    ensures v' == DivByVec(v, other)
  {
    v' := v;
    v' := v'.(x := v'.x / other.x);
    v' := v'.(y := v'.y / other.y);
    v' := v'.(z := v'.z / other.z);
  }

  method MulEq(v: Vec3, k: real) returns (v': Vec3)
    ensures v' == Scale(v, k)
  {
    v' := v;
    v' := v'.(x := v'.x * k);
    v' := v'.(y := v'.y * k);
    v' := v'.(z := v'.z * k);
  }

  method MulByVecEq(v: Vec3, other: Vec3) returns (v': Vec3)
    ensures v' == MulByVec(v, other)
  {
    v' := v;
    v' := v'.(x := v'.x * other.x);
    v' := v'.(y := v'.y * other.y);
    v' := v'.(z := v'.z * other.z);
  }

  method NegEq(v: Vec3) returns (v': Vec3)
    ensures v' == Neg(v)
  {
    v' := v;
    v' := v'.(x := -v'.x);
    v' := v'.(y := -v'.y);
    v' := v'.(z := -v'.z);
  }
}
