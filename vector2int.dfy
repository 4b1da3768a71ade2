/** `Vector2Int`: two 32-bit int components with wrapping arithmetic. Many of
    its members return doubles or `Vector2`s: those widen the receiver to
    `Vector2` first. Its laws are mostly inherited from `Vector3Int` through the
    zero-filling promotion. */
module Vector2IntOps {
  import opened VectorTypes
  import opened Int32Arith
  import RealArith
  import V2 = Vector2Ops
  import V3I = Vector3IntOps

  const Zero := Vector2Int(0, 0)
  const One := Vector2Int(1, 1)
  const Right := Vector2Int(1, 0)
  const Left := Vector2Int(-1, 0)
  const Up := Vector2Int(0, 1)
  const Down := Vector2Int(0, -1)

  // Conversions.

  /** The implicit conversion to `Vector2`. */
  function ToVector2(v: Vector2Int): (r: Vector2)
    ensures r.X == v.X as real && r.Y == v.Y as real
  {
    Vector2(v.X as real, v.Y as real)
  }

  /** The explicit conversion from `Vector2`: `(int)` on each component, which
      truncates toward zero. Only components whose truncation fits in an `int`
      are modelled. */
  function FromVector2(v: Vector2): (r: Vector2Int)
    requires -2147483649.0 < v.X < 2147483648.0
    requires -2147483649.0 < v.Y < 2147483648.0
    ensures forall axis: PlanarAxis :: 0.0 <= V2.GetAxis(v, axis) ==>
      GetAxis(r, axis) <= V2.GetAxis(v, axis) < GetAxis(r, axis) + 1.0
    ensures forall axis: PlanarAxis :: V2.GetAxis(v, axis) <= 0.0 ==>
      GetAxis(r, axis) - 1.0 < V2.GetAxis(v, axis) <= GetAxis(r, axis)
  {
    Vector2Int(Truncate(v.X), Truncate(v.Y))
  }

  /** Widening to `Vector2` and casting back is lossless, so widening is injective. */
  lemma ConversionRoundTrip(v: Vector2Int, w: Vector2Int)
    ensures FromVector2(ToVector2(v)) == v
    ensures ToVector2(v) == ToVector2(w) ==> v == w
  {
    TruncateOfWhole(v.X);
    TruncateOfWhole(v.Y);
    TruncateOfWhole(w.X);
    TruncateOfWhole(w.Y);
  }

  /** The cast keeps the whole part: (1.9, -1.9) becomes (1, -1). */
  lemma FromVector2Truncates()
    ensures FromVector2(Vector2(1.9, -1.9)) == Vector2Int(1, -1)
  {
    TruncateExamples();
  }

  /** The implicit conversion to `Vector3Int`: the same `X` and `Y`, and a zero `Z`. */
  function ToVector3Int(v: Vector2Int): (r: Vector3Int)
    ensures V3I.XY(r) == v && r.Z == 0
  {
    Vector3Int(v.X, v.Y, 0)
  }

  /** `To3D(axisToAdd, axisValue)`: `axisValue` goes into the named axis and
      `X`, `Y` fill the two remaining slots in their order. */
  function To3D(v: Vector2Int, axisToAdd: Axis, axisValue: Int32 := 0): (r: Vector3Int)
    ensures V3I.GetAxis(r, axisToAdd) == axisValue
    ensures V3I.GetAxis(r, OtherAxes(axisToAdd).0) == v.X
    ensures V3I.GetAxis(r, OtherAxes(axisToAdd).1) == v.Y
  {
    match axisToAdd
    case X => Vector3Int(axisValue, v.X, v.Y)
    case Y => Vector3Int(v.X, axisValue, v.Y)
    case Z => Vector3Int(v.X, v.Y, axisValue)
  }

  /** The swizzle that drops the added axis undoes `To3D`, and the implicit
      promotion is `To3D` on `Z` with the default value. */
  lemma To3DSwizzle(v: Vector2Int, axisValue: Int32)
    ensures V3I.XY(To3D(v, Axis.Z, axisValue)) == v
    ensures V3I.XZ(To3D(v, Axis.Y, axisValue)) == v
    ensures V3I.YZ(To3D(v, Axis.X, axisValue)) == v
    ensures ToVector3Int(v) == To3D(v, Axis.Z)
  {
  }

  /** The two widenings commute: through `Vector3Int` or through `Vector2`,
      the result is the same `Vector3`. */
  lemma WideningsCommute(v: Vector2Int)
    ensures V3I.ToVector3(ToVector3Int(v)) == V2.ToVector3(ToVector2(v))
  {
  }

  /** `GetAxis` returns a double, the widened component. */
  function GetAxis(v: Vector2Int, axis: PlanarAxis): (r: real)
    ensures r == V2.GetAxis(ToVector2(v), axis)
  {
    match axis
    case X => v.X as real
    case Y => v.Y as real
  }

  /** `YX` returns a `Vector2`, not a `Vector2Int`. */
  function YX(v: Vector2Int): (r: Vector2)
    ensures r == V2.YX(ToVector2(v))
    ensures V2.YX(r) == ToVector2(v)
  {
    Vector2(v.Y as real, v.X as real)
  }

  // Operators on ints, all wrapping.

  function Add(a: Vector2Int, b: Vector2Int): Vector2Int
  {
    Vector2Int(Int32Arith.Add(a.X, b.X), Int32Arith.Add(a.Y, b.Y))
  }

  function Sub(a: Vector2Int, b: Vector2Int): Vector2Int
  {
    Vector2Int(Int32Arith.Sub(a.X, b.X), Int32Arith.Sub(a.Y, b.Y))
  }

  function Neg(a: Vector2Int): Vector2Int
  {
    Vector2Int(Int32Arith.Neg(a.X), Int32Arith.Neg(a.Y))
  }

  function MulScalar(a: Vector2Int, b: Int32): Vector2Int
  {
    Vector2Int(Mul(a.X, b), Mul(a.Y, b))
  }

  function ScalarMul(a: Int32, b: Vector2Int): Vector2Int { MulScalar(b, a) }

  /** The int operators are the `Vector3Int` operators on the promoted vectors:
      the zero `Z` stays zero. */
  lemma OperatorsPromote(a: Vector2Int, b: Vector2Int, k: Int32)
    ensures ToVector3Int(Add(a, b)) == V3I.Add(ToVector3Int(a), ToVector3Int(b))
    ensures ToVector3Int(Sub(a, b)) == V3I.Sub(ToVector3Int(a), ToVector3Int(b))
    ensures ToVector3Int(Neg(a)) == V3I.Neg(ToVector3Int(a))
    ensures ToVector3Int(MulScalar(a, k)) == V3I.MulScalar(ToVector3Int(a), k)
    ensures ScalarMul(k, a) == MulScalar(a, k)
  {
    WrapInRange(0);
    assert -(0 as int) == 0;
  }

  /** `a - b == -(b - a)` and `a + b == b + a`, also across overflow. */
  lemma SubAntisymmetric(a: Vector2Int, b: Vector2Int)
    ensures Sub(a, b) == Neg(Sub(b, a))
    ensures Add(a, b) == Add(b, a)
  {
    Commutes(b.X, a.X);
    Commutes(b.Y, a.Y);
  }

  // Operators with doubles and with `Vector2`: the int vector is widened first.

  function MulReal(a: Vector2Int, b: real): Vector2 { V2.MulScalar(ToVector2(a), b) }
  function RealMul(a: real, b: Vector2Int): Vector2 { V2.ScalarMul(a, ToVector2(b)) }
  function DivReal(a: Vector2Int, b: real): Vector2
    requires b != 0.0
  {
    V2.Div(ToVector2(a), b)
  }

  /** Both argument orders of the double product agree, and dividing by a non-zero
      double is undone by multiplying by it. */
  lemma RealOperatorsLaws(a: Vector2Int, b: real)
    ensures RealMul(b, a) == MulReal(a, b)
    ensures b != 0.0 ==> V2.MulScalar(DivReal(a, b), b) == ToVector2(a)
  {
    if b != 0.0 {
      V2.DivThenMul(ToVector2(a), b);
    }
  }

  function AddMixed(a: Vector2Int, b: Vector2): Vector2 { V2.Add(ToVector2(a), b) }
  function MixedAdd(a: Vector2, b: Vector2Int): Vector2 { V2.Add(a, ToVector2(b)) }
  function SubMixed(a: Vector2Int, b: Vector2): Vector2 { V2.Sub(ToVector2(a), b) }
  function MixedSub(a: Vector2, b: Vector2Int): Vector2 { V2.Sub(a, ToVector2(b)) }

  /** `==` between a `Vector2Int` and a `Vector2` compares the widened vector. */
  function EqualsMixed(a: Vector2Int, b: Vector2): bool { ToVector2(a) == b }

  /** The mixed operators agree with the int operators when both sides are ints,
      as long as nothing overflows, and the two argument orders agree. */
  lemma MixedOperatorsAgree(a: Vector2Int, b: Vector2Int, c: Vector2)
    ensures (MinValue <= a.X + b.X <= MaxValue && MinValue <= a.Y + b.Y <= MaxValue) ==>
      AddMixed(a, ToVector2(b)) == ToVector2(Add(a, b))
    ensures (MinValue <= a.X - b.X <= MaxValue && MinValue <= a.Y - b.Y <= MaxValue) ==>
      SubMixed(a, ToVector2(b)) == ToVector2(Sub(a, b))
    ensures MixedAdd(c, a) == AddMixed(a, c)
    ensures MixedSub(c, a) == V2.Neg(SubMixed(a, c))
  {
    if MinValue <= a.X + b.X <= MaxValue && MinValue <= a.Y + b.Y <= MaxValue {
      WrapInRange(a.X + b.X);
      WrapInRange(a.Y + b.Y);
    }
    if MinValue <= a.X - b.X <= MaxValue && MinValue <= a.Y - b.Y <= MaxValue {
      WrapInRange(a.X - b.X);
      WrapInRange(a.Y - b.Y);
    }
  }

  /** A mixed `==` that holds means the cast back to ints gives the int vector. */
  lemma EqualsMixedCastsBack(a: Vector2Int, c: Vector2)
    requires EqualsMixed(a, c)
    ensures -2147483649.0 < c.X < 2147483648.0 && -2147483649.0 < c.Y < 2147483648.0
    ensures FromVector2(c) == a
  {
    ConversionRoundTrip(a, a);
  }

  // Tuple conversions.

  function ToTuple(v: Vector2Int): (Int32, Int32) { (v.X, v.Y) }
  function FromTuple(t: (Int32, Int32)): Vector2Int { Vector2Int(t.0, t.1) }

  /** Converting to a tuple and back, in either order, reproduces the components. */
  lemma TupleRoundTrip(v: Vector2Int, t: (Int32, Int32))
    ensures FromTuple(ToTuple(v)) == v
    ensures ToTuple(FromTuple(t)) == t
  {
  }

  // Products and magnitudes.

  /** `Scale(Vector2)`: the `Vector2` componentwise product of the widened vector. */
  function Scale(a: Vector2Int, other: Vector2): Vector2 { V2.Scale(ToVector2(a), other) }

  /** `ScaleInt`: the wrapped componentwise product. */
  function ScaleInt(a: Vector2Int, other: Vector2Int): Vector2Int
  {
    Vector2Int(Mul(a.X, other.X), Mul(a.Y, other.Y))
  }

  /** `ScaleInt` is commutative, has `One` as identity, and is `Vector3Int.ScaleInt`
      on the promoted vectors. */
  lemma ScaleIntLaws(a: Vector2Int, b: Vector2Int)
    ensures ScaleInt(a, b) == ScaleInt(b, a)
    ensures ScaleInt(a, One) == a
    ensures ToVector3Int(ScaleInt(a, b)) == V3I.ScaleInt(ToVector3Int(a), ToVector3Int(b))
  {
    Commutes(a.X, b.X);
    Commutes(a.Y, b.Y);
    WrapInRange(a.X);
    WrapInRange(a.Y);
    WrapInRange(0);
  }

  function Dot(a: Vector2Int, b: Vector2Int): Int32
  {
    Int32Arith.Add(Mul(a.X, b.X), Mul(a.Y, b.Y))
  }

  /** `Cross` of two planar vectors, a `Vector3Int` whose only non-zero component is `Z`. */
  function Cross(a: Vector2Int, b: Vector2Int): (r: Vector3Int)
    ensures r.X == 0 && r.Y == 0
  {
    Vector3Int(0, 0, Int32Arith.Sub(Mul(a.X, b.Y), Mul(a.Y, b.X)))
  }

  function SqrMagnitudeInt(v: Vector2Int): Int32
  {
    Int32Arith.Add(Mul(v.X, v.X), Mul(v.Y, v.Y))
  }

  /** `SqrMagnitude()`: `1.0 * X * X + 1.0 * Y * Y`, the squared magnitude of the
      widened vector in doubles, so it does not wrap. */
  function SqrMagnitude(v: Vector2Int): real
  {
    V2.SqrMagnitude(ToVector2(v))
  }

  function SqrDistanceInt(a: Vector2Int, b: Vector2Int): Int32 { SqrMagnitudeInt(Sub(b, a)) }

  /** `SqrDistance(Vector2)`: `(b - this).SqrMagnitude()` with the mixed subtraction. */
  function SqrDistance(a: Vector2Int, b: Vector2): real { V2.SqrMagnitude(MixedSub(b, a)) }

  /** Helper for the promotion lemmas: wrapped addition of zero and multiplication by zero. */
  lemma AddZero(x: Int32)
    ensures Int32Arith.Add(x, 0) == x
    ensures Mul(x, 0) == 0 && Mul(0, x) == 0
  {
    WrapInRange(x);
    WrapInRange(0);
  }

  /** `Dot` is `Vector3Int.Dot` on the promoted vectors. */
  lemma DotPromotes(a: Vector2Int, b: Vector2Int)
    ensures Dot(a, b) == V3I.Dot(ToVector3Int(a), ToVector3Int(b))
  {
    AddZero(0);
    AddZero(Dot(a, b));
  }

  /** `SqrMagnitudeInt` is `Vector3Int.SqrMagnitudeInt` of the promoted vector. */
  lemma SqrMagnitudeIntPromotes(a: Vector2Int)
    ensures SqrMagnitudeInt(a) == V3I.SqrMagnitudeInt(ToVector3Int(a))
  {
    AddZero(0);
    AddZero(SqrMagnitudeInt(a));
  }

  /** `SqrDistanceInt` is `Vector3Int.SqrDistanceInt` of the promoted vectors. */
  lemma SqrDistanceIntPromotes(a: Vector2Int, b: Vector2Int)
    ensures SqrDistanceInt(a, b) == V3I.SqrDistanceInt(ToVector3Int(a), ToVector3Int(b))
  {
    OperatorsPromote(b, a, 0);
    SqrMagnitudeIntPromotes(Sub(b, a));
  }

  /** `Cross` is `Vector3Int.Cross` of the promoted vectors. */
  lemma CrossPromotes(a: Vector2Int, b: Vector2Int)
    ensures Cross(a, b) == V3I.Cross(ToVector3Int(a), ToVector3Int(b))
  {
    AddZero(a.X);
    AddZero(a.Y);
    AddZero(b.X);
    AddZero(b.Y);
    assert Int32Arith.Sub(0, 0) == 0 by {
      WrapInRange(0);
    }
  }

  /** `Dot` is symmetric and `Dot(a, a)` is `SqrMagnitudeInt(a)`, across overflow. */
  lemma DotLaws(a: Vector2Int, b: Vector2Int)
    ensures Dot(a, b) == Dot(b, a)
    ensures Dot(a, a) == SqrMagnitudeInt(a)
  {
    DotPromotes(a, b);
    DotPromotes(b, a);
    DotPromotes(a, a);
    SqrMagnitudeIntPromotes(a);
    V3I.DotLaws(ToVector3Int(a), ToVector3Int(b));
    V3I.DotLaws(ToVector3Int(a), ToVector3Int(a));
  }

  /** The `Z` of `Cross` is antisymmetric, so a vector crossed with itself is zero. */
  lemma CrossAntisymmetric(a: Vector2Int, b: Vector2Int)
    ensures Cross(a, b).Z == Int32Arith.Neg(Cross(b, a).Z)
    ensures Cross(a, a) == V3I.Zero
  {
    DeterminantAntisymmetric(a.X, b.Y, a.Y, b.X);
    DeterminantAntisymmetric(a.X, a.Y, a.Y, a.X);
  }

  /** `SqrDistanceInt` is symmetric and zero from a vector to itself, across overflow. */
  lemma SqrDistanceIntLaws(a: Vector2Int, b: Vector2Int)
    ensures SqrDistanceInt(a, b) == SqrDistanceInt(b, a)
    ensures SqrDistanceInt(a, a) == 0
  {
    SqrDistanceIntPromotes(a, b);
    SqrDistanceIntPromotes(b, a);
    SqrDistanceIntPromotes(a, a);
    V3I.SqrDistanceIntLaws(ToVector3Int(a), ToVector3Int(b));
  }

  // Componentwise bounds.

  /** Componentwise minimum, per axis the smaller component. */
  function Min(a: Vector2Int, b: Vector2Int): (r: Vector2Int)
    ensures ToVector3Int(r) == V3I.Min(ToVector3Int(a), ToVector3Int(b))
  {
    Vector2Int(V3I.MinInt(a.X, b.X), V3I.MinInt(a.Y, b.Y))
  }

  /** Componentwise maximum, per axis the larger component. */
  function Max(a: Vector2Int, b: Vector2Int): (r: Vector2Int)
    ensures ToVector3Int(r) == V3I.Max(ToVector3Int(a), ToVector3Int(b))
  {
    Vector2Int(V3I.MaxInt(a.X, b.X), V3I.MaxInt(a.Y, b.Y))
  }

  /** `Min` and `Max` bound both inputs per axis and take each value from one of them. */
  lemma MinMaxBounds(a: Vector2Int, b: Vector2Int)
    ensures Min(a, b).X <= a.X && Min(a, b).X <= b.X && (Min(a, b).X == a.X || Min(a, b).X == b.X)
    ensures Min(a, b).Y <= a.Y && Min(a, b).Y <= b.Y && (Min(a, b).Y == a.Y || Min(a, b).Y == b.Y)
    ensures a.X <= Max(a, b).X && b.X <= Max(a, b).X && (Max(a, b).X == a.X || Max(a, b).X == b.X)
    ensures a.Y <= Max(a, b).Y && b.Y <= Max(a, b).Y && (Max(a, b).Y == a.Y || Max(a, b).Y == b.Y)
  {
    var lo, hi := V3I.Min(ToVector3Int(a), ToVector3Int(b)), V3I.Max(ToVector3Int(a), ToVector3Int(b));
    assert V3I.GetAxis(lo, Axis.X) == Min(a, b).X && V3I.GetAxis(lo, Axis.Y) == Min(a, b).Y;
    assert V3I.GetAxis(hi, Axis.X) == Max(a, b).X && V3I.GetAxis(hi, Axis.Y) == Max(a, b).Y;
  }

  /** `MinMax` orders each axis on its own with `<`; the pair it builds is
      exactly `(Min(a, b), Max(a, b))`. */
  function MinMax(a: Vector2Int, b: Vector2Int): (r: (Vector2Int, Vector2Int))
    ensures r == (Min(a, b), Max(a, b))
    ensures r.0.X <= r.1.X && r.0.Y <= r.1.Y
  {
    var (minX, maxX) := if a.X < b.X then (a.X, b.X) else (b.X, a.X);
    var (minY, maxY) := if a.Y < b.Y then (a.Y, b.Y) else (b.Y, a.Y);
    (Vector2Int(minX, minY), Vector2Int(maxX, maxY))
  }

  // Operations delegated to `Vector2`.

  /** `Normalized()`: a `Vector2`. `Math.Sqrt(SqrMagnitude())` is passed in as
      `root`. The zero vector gives the `Vector2` zero. */
  function Normalized(v: Vector2Int, root: real): (r: Vector2)
    requires RealArith.IsRoot(root, SqrMagnitude(v))
    ensures v == Zero ==> r == V2.Zero
    ensures r == V2.Normalized(ToVector2(v), root)
  {
    NormalizedZeroIff(v);
    var sqrMag := SqrMagnitude(v);
    if sqrMag > 0.0 then
      DivReal(v, root)
    else
      V2.Zero
  }

  /** Only the zero vector has a non-positive squared magnitude. */
  lemma NormalizedZeroIff(v: Vector2Int)
    ensures SqrMagnitude(v) > 0.0 <==> v != Zero
  {
    V2.SqrMagnitudeZero(ToVector2(v));
    ConversionRoundTrip(v, Zero);
  }

  /** Any other vector normalizes to the unit vector in its direction. */
  lemma NormalizedUnit(v: Vector2Int, root: real)
    requires RealArith.IsRoot(root, SqrMagnitude(v)) && v != Zero
    ensures V2.SqrMagnitude(Normalized(v, root)) == 1.0
    ensures V2.MulScalar(Normalized(v, root), root) == ToVector2(v)
  {
    NormalizedZeroIff(v);
  }

  /** `Reflect`, `Project`, `ProjectOnPlane` and `ClampMagnitude` widen the
      receiver and call the `Vector2` operation, so they inherit its guards. */
  function Reflect(v: Vector2Int, normal: Vector2): (r: Vector2)
    ensures normal == V2.Zero ==> r == ToVector2(v)
  {
    V2.Reflect(ToVector2(v), normal)
  }

  function Project(v: Vector2Int, onto: Vector2): (r: Vector2)
    ensures V2.SqrMagnitude(onto) == 0.0 ==> r == V2.Zero
  {
    V2.Project(ToVector2(v), onto)
  }

  function ProjectOnPlane(v: Vector2Int, planeNormal: Vector2): (r: Vector2)
    ensures V2.SqrMagnitude(planeNormal) == 0.0 ==> r == ToVector2(v)
  {
    V2.ProjectOnPlane(ToVector2(v), planeNormal)
  }

  function ClampMagnitude(v: Vector2Int, maxLength: real, root: real): (r: Vector2)
    requires RealArith.IsRoot(root, SqrMagnitude(v))
    ensures SqrMagnitude(v) <= maxLength * maxLength ==> r == ToVector2(v)
    ensures SqrMagnitude(v) > maxLength * maxLength ==>
      V2.SqrMagnitude(r) == maxLength * maxLength && r == V2.MulScalar(Normalized(v, root), maxLength)
  {
    V2.ClampMagnitude(ToVector2(v), maxLength, root)
  }
}
