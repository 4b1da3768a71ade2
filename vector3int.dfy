/** `Vector3Int`: three 32-bit int components. Every sum, difference, product
    and negation of components wraps modulo 2^32; the operations that take or
    return doubles go through the widening to `Vector3`. */
module Vector3IntOps {
  import opened VectorTypes
  import opened Int32Arith
  import RealArith
  import V3 = Vector3Ops

  const Zero := Vector3Int(0, 0, 0)
  const One := Vector3Int(1, 1, 1)
  const Right := Vector3Int(1, 0, 0)
  const Left := Vector3Int(-1, 0, 0)
  const Up := Vector3Int(0, 1, 0)
  const Down := Vector3Int(0, -1, 0)
  const Forward := Vector3Int(0, 0, 1)
  const Back := Vector3Int(0, 0, -1)

  function GetAxis(v: Vector3Int, axis: Axis): Int32
  {
    match axis
    case X => v.X
    case Y => v.Y
    case Z => v.Z
  }

  // Axis-pair swizzles.

  function XY(v: Vector3Int): Vector2Int { Vector2Int(v.X, v.Y) }
  function YX(v: Vector3Int): Vector2Int { Vector2Int(v.Y, v.X) }
  function XZ(v: Vector3Int): Vector2Int { Vector2Int(v.X, v.Z) }
  function ZX(v: Vector3Int): Vector2Int { Vector2Int(v.Z, v.X) }
  function YZ(v: Vector3Int): Vector2Int { Vector2Int(v.Y, v.Z) }
  function ZY(v: Vector3Int): Vector2Int { Vector2Int(v.Z, v.Y) }

  /** Each swizzle keeps the two named axes in the named order; the axis it
      drops is the one `OtherAxes` leaves out, so the swizzles named in
      ascending order, together with that axis, determine the vector. */
  lemma SwizzlesKeepOrder(v: Vector3Int, w: Vector3Int)
    ensures XY(v) == Vector2Int(GetAxis(v, Axis.X), GetAxis(v, Axis.Y))
    ensures YX(v) == Vector2Int(GetAxis(v, Axis.Y), GetAxis(v, Axis.X))
    ensures XZ(v) == Vector2Int(GetAxis(v, Axis.X), GetAxis(v, Axis.Z))
    ensures ZX(v) == Vector2Int(GetAxis(v, Axis.Z), GetAxis(v, Axis.X))
    ensures YZ(v) == Vector2Int(GetAxis(v, Axis.Y), GetAxis(v, Axis.Z))
    ensures ZY(v) == Vector2Int(GetAxis(v, Axis.Z), GetAxis(v, Axis.Y))
    ensures XY(v) == XY(w) && v.Z == w.Z ==> v == w
    ensures XZ(v) == XZ(w) && v.Y == w.Y ==> v == w
    ensures YZ(v) == YZ(w) && v.X == w.X ==> v == w
  {
  }

  // Operators on ints, all wrapping.

  function Add(a: Vector3Int, b: Vector3Int): Vector3Int
  {
    Vector3Int(Int32Arith.Add(a.X, b.X), Int32Arith.Add(a.Y, b.Y), Int32Arith.Add(a.Z, b.Z))
  }

  function Sub(a: Vector3Int, b: Vector3Int): Vector3Int
  {
    Vector3Int(Int32Arith.Sub(a.X, b.X), Int32Arith.Sub(a.Y, b.Y), Int32Arith.Sub(a.Z, b.Z))
  }

  function Neg(a: Vector3Int): Vector3Int
  {
    Vector3Int(Int32Arith.Neg(a.X), Int32Arith.Neg(a.Y), Int32Arith.Neg(a.Z))
  }

  function MulScalar(a: Vector3Int, b: Int32): Vector3Int
  {
    Vector3Int(Mul(a.X, b), Mul(a.Y, b), Mul(a.Z, b))
  }

  function ScalarMul(a: Int32, b: Vector3Int): Vector3Int { MulScalar(b, a) }

  /** Per axis, each operator is the wrap of the exact result. */
  lemma OperatorsExact(a: Vector3Int, b: Vector3Int, k: Int32, axis: Axis)
    ensures GetAxis(Add(a, b), axis) == Wrap(GetAxis(a, axis) + GetAxis(b, axis))
    ensures GetAxis(Sub(a, b), axis) == Wrap(GetAxis(a, axis) - GetAxis(b, axis))
    ensures GetAxis(Neg(a), axis) == Wrap(-(GetAxis(a, axis) as int))
    ensures GetAxis(MulScalar(a, k), axis) == Wrap(GetAxis(a, axis) * k)
    ensures ScalarMul(k, a) == MulScalar(a, k)
  {
  }

  /** `a - b == -(b - a)` and `a + b == b + a`, also across overflow. */
  lemma SubAntisymmetric(a: Vector3Int, b: Vector3Int)
    ensures Sub(a, b) == Neg(Sub(b, a))
    ensures Add(a, b) == Add(b, a)
  {
    Commutes(b.X, a.X);
    Commutes(b.Y, a.Y);
    Commutes(b.Z, a.Z);
  }

  // Operators with doubles; the int components are widened exactly.

  /** The implicit conversion to `Vector3`. */
  function ToVector3(v: Vector3Int): (r: Vector3)
    ensures forall axis: Axis :: V3.GetAxis(r, axis) == GetAxis(v, axis) as real
  {
    Vector3(v.X as real, v.Y as real, v.Z as real)
  }

  /** The explicit conversion from `Vector3`: `(int)` on each component, which
      truncates toward zero. Only components whose truncation fits in an `int`
      are modelled. */
  function FromVector3(v: Vector3): (r: Vector3Int)
    requires -2147483649.0 < v.X < 2147483648.0
    requires -2147483649.0 < v.Y < 2147483648.0
    requires -2147483649.0 < v.Z < 2147483648.0
    ensures forall axis: Axis :: 0.0 <= V3.GetAxis(v, axis) ==>
      GetAxis(r, axis) as real <= V3.GetAxis(v, axis) < GetAxis(r, axis) as real + 1.0
    ensures forall axis: Axis :: V3.GetAxis(v, axis) <= 0.0 ==>
      GetAxis(r, axis) as real - 1.0 < V3.GetAxis(v, axis) <= GetAxis(r, axis) as real
  {
    Vector3Int(Truncate(v.X), Truncate(v.Y), Truncate(v.Z))
  }

  /** Widening to `Vector3` and casting back is lossless, so widening is injective. */
  lemma ConversionRoundTrip(v: Vector3Int, w: Vector3Int)
    ensures FromVector3(ToVector3(v)) == v
    ensures ToVector3(v) == ToVector3(w) ==> v == w
  {
    TruncateOfWhole(v.X);
    TruncateOfWhole(v.Y);
    TruncateOfWhole(v.Z);
    TruncateOfWhole(w.X);
    TruncateOfWhole(w.Y);
    TruncateOfWhole(w.Z);
  }

  /** The cast keeps the whole part: (1.9, -1.9, 0.5) becomes (1, -1, 0). */
  lemma FromVector3Truncates()
    ensures FromVector3(Vector3(1.9, -1.9, 0.5)) == Vector3Int(1, -1, 0)
  {
    TruncateExamples();
    assert Truncate(0.5) == 0;
  }

  /** `a * b` for a double `b`: a `Vector3`, computed without wrapping. */
  function MulReal(a: Vector3Int, b: real): Vector3
  {
    Vector3(a.X as real * b, a.Y as real * b, a.Z as real * b)
  }

  function RealMul(a: real, b: Vector3Int): Vector3 { MulReal(b, a) }

  /** `a / b` for a double `b`, also a `Vector3`. */
  function DivReal(a: Vector3Int, b: real): Vector3
    requires b != 0.0
  {
    Vector3(a.X as real / b, a.Y as real / b, a.Z as real / b)
  }

  /** The double-scalar operators are the `Vector3` operators on the widened vector. */
  lemma RealOperatorsWiden(a: Vector3Int, b: real)
    ensures MulReal(a, b) == V3.MulScalar(ToVector3(a), b)
    ensures RealMul(b, a) == V3.ScalarMul(b, ToVector3(a))
    ensures b != 0.0 ==> DivReal(a, b) == V3.Div(ToVector3(a), b)
  {
  }

  // Mixed operators with `Vector3`: the int vector is widened first.

  function AddMixed(a: Vector3Int, b: Vector3): Vector3 { V3.Add(ToVector3(a), b) }
  function MixedAdd(a: Vector3, b: Vector3Int): Vector3 { V3.Add(a, ToVector3(b)) }
  function SubMixed(a: Vector3Int, b: Vector3): Vector3 { V3.Sub(ToVector3(a), b) }
  function MixedSub(a: Vector3, b: Vector3Int): Vector3 { V3.Sub(a, ToVector3(b)) }

  /** `==` between a `Vector3Int` and a `Vector3` compares the widened vector. */
  function EqualsMixed(a: Vector3Int, b: Vector3): bool { ToVector3(a) == b }

  /** The mixed operators agree with the int operators when both sides are ints,
      as long as nothing overflows, and the two argument orders agree. */
  lemma MixedOperatorsAgree(a: Vector3Int, b: Vector3Int, c: Vector3)
    ensures (MinValue <= a.X + b.X <= MaxValue && MinValue <= a.Y + b.Y <= MaxValue &&
             MinValue <= a.Z + b.Z <= MaxValue) ==> AddMixed(a, ToVector3(b)) == ToVector3(Add(a, b))
    ensures (MinValue <= a.X - b.X <= MaxValue && MinValue <= a.Y - b.Y <= MaxValue &&
             MinValue <= a.Z - b.Z <= MaxValue) ==> SubMixed(a, ToVector3(b)) == ToVector3(Sub(a, b))
    ensures MixedAdd(c, a) == AddMixed(a, c)
    ensures MixedSub(c, a) == V3.Neg(SubMixed(a, c))
  {
    if MinValue <= a.X + b.X <= MaxValue && MinValue <= a.Y + b.Y <= MaxValue && MinValue <= a.Z + b.Z <= MaxValue {
      WrapInRange(a.X + b.X);
      WrapInRange(a.Y + b.Y);
      WrapInRange(a.Z + b.Z);
    }
    if MinValue <= a.X - b.X <= MaxValue && MinValue <= a.Y - b.Y <= MaxValue && MinValue <= a.Z - b.Z <= MaxValue {
      WrapInRange(a.X - b.X);
      WrapInRange(a.Y - b.Y);
      WrapInRange(a.Z - b.Z);
    }
  }

  /** A mixed `==` that holds means the cast back to ints gives the int vector. */
  lemma EqualsMixedCastsBack(a: Vector3Int, c: Vector3)
    requires EqualsMixed(a, c)
    ensures -2147483649.0 < c.X < 2147483648.0 && -2147483649.0 < c.Y < 2147483648.0 &&
      -2147483649.0 < c.Z < 2147483648.0
    ensures FromVector3(c) == a
  {
    ConversionRoundTrip(a, a);
  }

  // Tuple conversions.

  function ToTuple(v: Vector3Int): (Int32, Int32, Int32) { (v.X, v.Y, v.Z) }
  function FromTuple(t: (Int32, Int32, Int32)): Vector3Int { Vector3Int(t.0, t.1, t.2) }

  /** Converting to a tuple and back, in either order, reproduces the components. */
  lemma TupleRoundTrip(v: Vector3Int, t: (Int32, Int32, Int32))
    ensures FromTuple(ToTuple(v)) == v
    ensures ToTuple(FromTuple(t)) == t
  {
  }

  // Products and magnitudes.

  /** `Scale(Vector3)`: the `Vector3` componentwise product of the widened vector. */
  function Scale(a: Vector3Int, other: Vector3): Vector3 { V3.Scale(ToVector3(a), other) }

  /** `ScaleInt`: the wrapped componentwise product. */
  function ScaleInt(a: Vector3Int, other: Vector3Int): Vector3Int
  {
    Vector3Int(Mul(a.X, other.X), Mul(a.Y, other.Y), Mul(a.Z, other.Z))
  }

  /** `ScaleInt` multiplies per axis, is commutative and has `One` as identity. */
  lemma ScaleIntLaws(a: Vector3Int, b: Vector3Int, axis: Axis)
    ensures GetAxis(ScaleInt(a, b), axis) == Wrap(GetAxis(a, axis) * GetAxis(b, axis))
    ensures ScaleInt(a, b) == ScaleInt(b, a)
    ensures ScaleInt(a, One) == a
  {
    Commutes(a.X, b.X);
    Commutes(a.Y, b.Y);
    Commutes(a.Z, b.Z);
    WrapInRange(a.X);
    WrapInRange(a.Y);
    WrapInRange(a.Z);
  }

  function Dot(a: Vector3Int, b: Vector3Int): Int32
  {
    Int32Arith.Add(Int32Arith.Add(Mul(a.X, b.X), Mul(a.Y, b.Y)), Mul(a.Z, b.Z))
  }

  function Cross(a: Vector3Int, b: Vector3Int): Vector3Int
  {
    Vector3Int(
      Int32Arith.Sub(Mul(a.Y, b.Z), Mul(a.Z, b.Y)),
      Int32Arith.Sub(Mul(a.Z, b.X), Mul(a.X, b.Z)),
      Int32Arith.Sub(Mul(a.X, b.Y), Mul(a.Y, b.X)))
  }

  function SqrMagnitudeInt(v: Vector3Int): Int32
  {
    Int32Arith.Add(Int32Arith.Add(Mul(v.X, v.X), Mul(v.Y, v.Y)), Mul(v.Z, v.Z))
  }

  /** `SqrMagnitude()`: `1.0 * X * X + ...`. The leading `1.0` makes every
      product a double product, so this is the squared magnitude of the widened
      vector and does not wrap. */
  function SqrMagnitude(v: Vector3Int): real
  {
    V3.SqrMagnitude(ToVector3(v))
  }

  function SqrDistanceInt(a: Vector3Int, b: Vector3Int): Int32 { SqrMagnitudeInt(Sub(b, a)) }

  /** `SqrDistance(Vector3)`: `(b - this).SqrMagnitude()` with the mixed subtraction. */
  function SqrDistance(a: Vector3Int, b: Vector3): real { V3.SqrMagnitude(MixedSub(b, a)) }

  /** The exact integer dot product of a vector with three integers. */
  function ExactDot(a: Vector3Int, x: int, y: int, z: int): int
  {
    a.X * x + a.Y * y + a.Z * z
  }

  /** Three wrapped products summed with wrapping are the wrap of the exact sum
      of products. */
  lemma SumOfProductsWraps(a: Vector3Int, x: int, y: int, z: int)
    ensures Int32Arith.Add(Int32Arith.Add(Mul(a.X, Wrap(x)), Mul(a.Y, Wrap(y))), Mul(a.Z, Wrap(z)))
      == Wrap(ExactDot(a, x, y, z))
  {
    WrapInRange(a.X);
    WrapInRange(a.Y);
    WrapInRange(a.Z);
    MulWrap(a.X, x);
    MulWrap(a.Y, y);
    MulWrap(a.Z, z);
    AddWrap(a.X * x, a.Y * y);
    AddWrap(a.X * x + a.Y * y, a.Z * z);
  }

  /** `Dot` is the wrap of the exact dot product. */
  lemma DotExact(a: Vector3Int, b: Vector3Int)
    ensures Dot(a, b) == Wrap(ExactDot(a, b.X, b.Y, b.Z))
  {
    WrapInRange(b.X);
    WrapInRange(b.Y);
    WrapInRange(b.Z);
    SumOfProductsWraps(a, b.X, b.Y, b.Z);
  }

  /** `Dot` is symmetric and `Dot(a, a)` is `SqrMagnitudeInt(a)`, across overflow. */
  lemma DotLaws(a: Vector3Int, b: Vector3Int)
    ensures Dot(a, b) == Dot(b, a)
    ensures Dot(a, a) == SqrMagnitudeInt(a)
  {
    Commutes(a.X, b.X);
    Commutes(a.Y, b.Y);
    Commutes(a.Z, b.Z);
  }

  /** Each component of `Cross` is the wrap of the exact component. */
  lemma CrossExact(a: Vector3Int, b: Vector3Int)
    ensures Cross(a, b) ==
      Vector3Int(Wrap(a.Y * b.Z - a.Z * b.Y), Wrap(a.Z * b.X - a.X * b.Z), Wrap(a.X * b.Y - a.Y * b.X))
  {
    SubWrap(a.Y * b.Z, a.Z * b.Y);
    SubWrap(a.Z * b.X, a.X * b.Z);
    SubWrap(a.X * b.Y, a.Y * b.X);
  }

  /** `Cross` is anticommutative, so a vector crossed with itself is zero. */
  lemma CrossAnticommutative(a: Vector3Int, b: Vector3Int)
    ensures Cross(a, b) == Neg(Cross(b, a))
    ensures Cross(a, a) == Zero
  {
    DeterminantAntisymmetric(a.Y, b.Z, a.Z, b.Y);
    DeterminantAntisymmetric(a.Z, b.X, a.X, b.Z);
    DeterminantAntisymmetric(a.X, b.Y, a.Y, b.X);
    DeterminantAntisymmetric(a.Y, a.Z, a.Z, a.Y);
    DeterminantAntisymmetric(a.Z, a.X, a.X, a.Z);
    DeterminantAntisymmetric(a.X, a.Y, a.Y, a.X);
  }

  /** The cross product is orthogonal to its first operand, even after wrapping. */
  lemma CrossOrthogonal(a: Vector3Int, b: Vector3Int)
    ensures Dot(a, Cross(a, b)) == 0
  {
    var x, y, z := a.Y * b.Z - a.Z * b.Y, a.Z * b.X - a.X * b.Z, a.X * b.Y - a.Y * b.X;
    CrossExact(a, b);
    SumOfProductsWraps(a, x, y, z);
    calc {
      ExactDot(a, x, y, z);
    ==
      a.X * (a.Y * b.Z - a.Z * b.Y) + a.Y * (a.Z * b.X - a.X * b.Z) + a.Z * (a.X * b.Y - a.Y * b.X);
    ==
      0;
    }
  }

  /** The named directions form a right-handed basis: `Right x Up == Forward`. */
  lemma CrossBasis()
    ensures Cross(Right, Up) == Forward
  {
  }

  /** `SqrDistanceInt` is the wrap of the exact squared distance. */
  lemma SqrDistanceIntExact(a: Vector3Int, b: Vector3Int)
    ensures SqrDistanceInt(a, b) ==
      Wrap((b.X - a.X) * (b.X - a.X) + (b.Y - a.Y) * (b.Y - a.Y) + (b.Z - a.Z) * (b.Z - a.Z))
  {
    var d := Sub(b, a);
    assert d == Vector3Int(Wrap(b.X - a.X), Wrap(b.Y - a.Y), Wrap(b.Z - a.Z));
    MulWrap(b.X - a.X, b.X - a.X);
    MulWrap(b.Y - a.Y, b.Y - a.Y);
    MulWrap(b.Z - a.Z, b.Z - a.Z);
    AddWrap((b.X - a.X) * (b.X - a.X), (b.Y - a.Y) * (b.Y - a.Y));
    AddWrap((b.X - a.X) * (b.X - a.X) + (b.Y - a.Y) * (b.Y - a.Y), (b.Z - a.Z) * (b.Z - a.Z));
  }

  /** `SqrDistanceInt` is symmetric and zero from a vector to itself, across overflow. */
  lemma SqrDistanceIntLaws(a: Vector3Int, b: Vector3Int)
    ensures SqrDistanceInt(a, b) == SqrDistanceInt(b, a)
    ensures SqrDistanceInt(a, a) == 0
  {
    SqrDistanceIntExact(a, b);
    SqrDistanceIntExact(b, a);
    SqrDistanceIntExact(a, a);
    assert (b.X - a.X) * (b.X - a.X) == (a.X - b.X) * (a.X - b.X);
    assert (b.Y - a.Y) * (b.Y - a.Y) == (a.Y - b.Y) * (a.Y - b.Y);
    assert (b.Z - a.Z) * (b.Z - a.Z) == (a.Z - b.Z) * (a.Z - b.Z);
  }

  /** `SqrMagnitudeInt` is the wrap of the exact squared length. */
  lemma SqrMagnitudeIntExact(v: Vector3Int)
    ensures SqrMagnitudeInt(v) == Wrap(v.X * v.X + v.Y * v.Y + v.Z * v.Z)
  {
    DotLaws(v, v);
    DotExact(v, v);
  }

  /** The double `SqrMagnitude` holds the exact squared length. */
  lemma SqrMagnitudeExact(v: Vector3Int)
    ensures SqrMagnitude(v) == (v.X * v.X + v.Y * v.Y + v.Z * v.Z) as real
  {
    CastProduct(v.X, v.X);
    CastProduct(v.Y, v.Y);
    CastProduct(v.Z, v.Z);
  }

  /** The int and double squared magnitudes agree whenever the exact squared
      length fits in an `int`. */
  lemma SqrMagnitudeAgrees(v: Vector3Int)
    requires v.X * v.X + v.Y * v.Y + v.Z * v.Z <= MaxValue
    ensures SqrMagnitudeInt(v) as real == SqrMagnitude(v)
  {
    SqrMagnitudeExact(v);
    SqrMagnitudeIntExact(v);
    assert 0 <= v.X * v.X && 0 <= v.Y * v.Y && 0 <= v.Z * v.Z;
    WrapInRange(v.X * v.X + v.Y * v.Y + v.Z * v.Z);
  }

  /** `SqrMagnitudeInt` overflows already at `(46341, 0, 0)`, whose exact squared
      length 2147488281 exceeds `int.MaxValue`: the result is negative, while
      the double `SqrMagnitude` is not. */
  lemma SqrMagnitudeIntOverflows()
    ensures SqrMagnitudeInt(Vector3Int(46341, 0, 0)) == -2147479015
    ensures SqrMagnitude(Vector3Int(46341, 0, 0)) == 2147488281.0
  {
    SqrMagnitudeExact(Vector3Int(46341, 0, 0));
  }

  // Componentwise bounds.

  function MinInt(a: Int32, b: Int32): Int32 { if a <= b then a else b }
  function MaxInt(a: Int32, b: Int32): Int32 { if a >= b then a else b }

  /** Componentwise minimum: per axis, a lower bound of both inputs that is one of them. */
  function Min(a: Vector3Int, b: Vector3Int): (r: Vector3Int)
    ensures forall axis: Axis ::
      GetAxis(r, axis) <= GetAxis(a, axis) && GetAxis(r, axis) <= GetAxis(b, axis) &&
      (GetAxis(r, axis) == GetAxis(a, axis) || GetAxis(r, axis) == GetAxis(b, axis))
  {
    Vector3Int(MinInt(a.X, b.X), MinInt(a.Y, b.Y), MinInt(a.Z, b.Z))
  }

  /** Componentwise maximum: per axis, an upper bound of both inputs that is one of them. */
  function Max(a: Vector3Int, b: Vector3Int): (r: Vector3Int)
    ensures forall axis: Axis ::
      GetAxis(a, axis) <= GetAxis(r, axis) && GetAxis(b, axis) <= GetAxis(r, axis) &&
      (GetAxis(r, axis) == GetAxis(a, axis) || GetAxis(r, axis) == GetAxis(b, axis))
  {
    Vector3Int(MaxInt(a.X, b.X), MaxInt(a.Y, b.Y), MaxInt(a.Z, b.Z))
  }

  /** `MinMax` orders each axis on its own with `<`; the pair it builds is
      exactly `(Min(a, b), Max(a, b))`. */
  function MinMax(a: Vector3Int, b: Vector3Int): (r: (Vector3Int, Vector3Int))
    ensures r == (Min(a, b), Max(a, b))
    ensures forall axis: Axis :: GetAxis(r.0, axis) <= GetAxis(r.1, axis)
  {
    var (minX, maxX) := if a.X < b.X then (a.X, b.X) else (b.X, a.X);
    var (minY, maxY) := if a.Y < b.Y then (a.Y, b.Y) else (b.Y, a.Y);
    var (minZ, maxZ) := if a.Z < b.Z then (a.Z, b.Z) else (b.Z, a.Z);
    (Vector3Int(minX, minY, minZ), Vector3Int(maxX, maxY, maxZ))
  }

  // Operations delegated to `Vector3`.

  /** `Normalized()`: a `Vector3`. `Math.Sqrt(SqrMagnitude())` is passed in as
      `root`. The zero vector gives the `Vector3` zero; any other vector gives
      the unit vector in its direction. */
  function Normalized(v: Vector3Int, root: real): (r: Vector3)
    requires RealArith.IsRoot(root, SqrMagnitude(v))
    ensures v == Zero ==> r == V3.Zero
    ensures r == V3.Normalized(ToVector3(v), root)
  {
    NormalizedZeroIff(v);
    var sqrMag := SqrMagnitude(v);
    if sqrMag > 0.0 then
      RealOperatorsWiden(v, root);
      DivReal(v, root)
    else
      V3.Zero
  }

  /** Any other vector normalizes to the unit vector in its direction. */
  lemma NormalizedUnit(v: Vector3Int, root: real)
    requires RealArith.IsRoot(root, SqrMagnitude(v)) && v != Zero
    ensures V3.SqrMagnitude(Normalized(v, root)) == 1.0
    ensures V3.MulScalar(Normalized(v, root), root) == ToVector3(v)
  {
    NormalizedZeroIff(v);
  }

  /** Only the zero vector has a non-positive squared magnitude. */
  lemma NormalizedZeroIff(v: Vector3Int)
    ensures SqrMagnitude(v) > 0.0 <==> v != Zero
  {
    V3.SqrMagnitudeZero(ToVector3(v));
    ConversionRoundTrip(v, Zero);
  }

  /** `Reflect`, `Project`, `ProjectOnPlane` and `ClampMagnitude` widen the
      receiver and call the `Vector3` operation, so they inherit its guards. */
  function Reflect(v: Vector3Int, normal: Vector3): (r: Vector3)
    ensures normal == V3.Zero ==> r == ToVector3(v)
  {
    V3.Reflect(ToVector3(v), normal)
  }

  function Project(v: Vector3Int, onto: Vector3): (r: Vector3)
    ensures V3.SqrMagnitude(onto) == 0.0 ==> r == V3.Zero
  {
    V3.Project(ToVector3(v), onto)
  }

  function ProjectOnPlane(v: Vector3Int, planeNormal: Vector3): (r: Vector3)
    ensures V3.SqrMagnitude(planeNormal) == 0.0 ==> r == ToVector3(v)
  {
    V3.ProjectOnPlane(ToVector3(v), planeNormal)
  }

  function ClampMagnitude(v: Vector3Int, maxLength: real, root: real): (r: Vector3)
    requires RealArith.IsRoot(root, SqrMagnitude(v))
    ensures SqrMagnitude(v) <= maxLength * maxLength ==> r == ToVector3(v)
    ensures SqrMagnitude(v) > maxLength * maxLength ==>
      V3.SqrMagnitude(r) == maxLength * maxLength && r == V3.MulScalar(Normalized(v, root), maxLength)
  {
    V3.ClampMagnitude(ToVector3(v), maxLength, root)
  }
}
