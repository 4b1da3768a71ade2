/** `Vector2`: two double components, here exact reals. Several operations are
    defined, or are most easily understood, through the implicit widening to
    `Vector3`, which appends a zero `Z`. */
module Vector2Ops {
  import opened VectorTypes
  import opened RealArith
  import V3 = Vector3Ops

  const Zero := Vector2(0.0, 0.0)
  const One := Vector2(1.0, 1.0)
  const Right := Vector2(1.0, 0.0)
  const Left := Vector2(-1.0, 0.0)
  const Up := Vector2(0.0, 1.0)
  const Down := Vector2(0.0, -1.0)

  /** The swapped pair, as a `Vector2`. */
  function YX(v: Vector2): (r: Vector2)
    ensures r.X == v.Y && r.Y == v.X
  {
    Vector2(v.Y, v.X)
  }

  /** Swapping twice gives back the original vector. */
  lemma YXInvolution(v: Vector2)
    ensures YX(YX(v)) == v
  {
  }

  function GetAxis(v: Vector2, axis: PlanarAxis): real
  {
    match axis
    case X => v.X
    case Y => v.Y
  }

  /** `To3D(axisToAdd, axisValue)`: `axisValue` goes into the named axis and
      `X`, `Y` fill the two remaining slots in their order. */
  function To3D(v: Vector2, axisToAdd: Axis, axisValue: real := 0.0): (r: Vector3)
    ensures V3.GetAxis(r, axisToAdd) == axisValue
    ensures V3.GetAxis(r, OtherAxes(axisToAdd).0) == v.X
    ensures V3.GetAxis(r, OtherAxes(axisToAdd).1) == v.Y
  {
    match axisToAdd
    case X => Vector3(axisValue, v.X, v.Y)
    case Y => Vector3(v.X, axisValue, v.Y)
    case Z => Vector3(v.X, v.Y, axisValue)
  }

  /** The swizzle that drops the added axis undoes `To3D`. */
  lemma To3DSwizzle(v: Vector2, axisValue: real)
    ensures V3.XY(To3D(v, Axis.Z, axisValue)) == v
    ensures V3.XZ(To3D(v, Axis.Y, axisValue)) == v
    ensures V3.YZ(To3D(v, Axis.X, axisValue)) == v
  {
  }

  /** The implicit conversion to `Vector3`: the same `X` and `Y`, and a zero `Z`. */
  function ToVector3(v: Vector2): (r: Vector3)
    ensures V3.XY(r) == v && r.Z == 0.0
  {
    Vector3(v.X, v.Y, 0.0)
  }

  /** Widening is `To3D` on the `Z` axis with the default value, and loses nothing. */
  lemma ToVector3IsTo3D(a: Vector2, b: Vector2)
    ensures ToVector3(a) == To3D(a, Axis.Z)
    ensures ToVector3(a) == ToVector3(b) <==> a == b
  {
    assert V3.XY(ToVector3(a)) == a;
    assert V3.XY(ToVector3(b)) == b;
  }

  // Operators.

  function Add(a: Vector2, b: Vector2): Vector2 { Vector2(a.X + b.X, a.Y + b.Y) }
  function Sub(a: Vector2, b: Vector2): Vector2 { Vector2(a.X - b.X, a.Y - b.Y) }
  function Neg(a: Vector2): Vector2 { Vector2(-a.X, -a.Y) }
  function MulScalar(a: Vector2, b: real): Vector2 { Vector2(a.X * b, a.Y * b) }
  function ScalarMul(a: real, b: Vector2): Vector2 { MulScalar(b, a) }
  function Div(a: Vector2, b: real): Vector2
    requires b != 0.0
  {
    Vector2(a.X / b, a.Y / b)
  }

  /** The operators commute with widening: each is the `Vector3` operator on the
      zero-filled vectors. */
  lemma OperatorsWiden(a: Vector2, b: Vector2, k: real)
    ensures ToVector3(Add(a, b)) == V3.Add(ToVector3(a), ToVector3(b))
    ensures ToVector3(Sub(a, b)) == V3.Sub(ToVector3(a), ToVector3(b))
    ensures ToVector3(Neg(a)) == V3.Neg(ToVector3(a))
    ensures ToVector3(MulScalar(a, k)) == V3.MulScalar(ToVector3(a), k)
    ensures ToVector3(ScalarMul(k, a)) == V3.ScalarMul(k, ToVector3(a))
  {
  }

  lemma DivWidens(a: Vector2, k: real)
    requires k != 0.0
    ensures ToVector3(Div(a, k)) == V3.Div(ToVector3(a), k)
  {
  }

  /** Dividing by `b` is undone by multiplying by `b`. */
  lemma DivThenMul(a: Vector2, b: real)
    requires b != 0.0
    ensures MulScalar(Div(a, b), b) == a
  {
    DivMulCancel(a.X, b);
    DivMulCancel(a.Y, b);
  }

  // Tuple conversions.

  function ToTuple(v: Vector2): (real, real) { (v.X, v.Y) }
  function FromTuple(t: (real, real)): Vector2 { Vector2(t.0, t.1) }

  /** Converting to a tuple and back, in either order, reproduces the components. */
  lemma TupleRoundTrip(v: Vector2, t: (real, real))
    ensures FromTuple(ToTuple(v)) == v
    ensures ToTuple(FromTuple(t)) == t
  {
  }

  // Products and magnitudes.

  /** Componentwise product (not the dot product). */
  function Scale(a: Vector2, other: Vector2): Vector2
  {
    Vector2(a.X * other.X, a.Y * other.Y)
  }

  /** `Scale` is commutative, `One` is its identity, and it widens to `Vector3.Scale`. */
  lemma ScaleLaws(a: Vector2, b: Vector2)
    ensures Scale(a, b) == Scale(b, a)
    ensures Scale(a, One) == a
    ensures ToVector3(Scale(a, b)) == V3.Scale(ToVector3(a), ToVector3(b))
  {
  }

  function Dot(a: Vector2, b: Vector2): real { a.X * b.X + a.Y * b.Y }

  function SqrMagnitude(v: Vector2): real { v.X * v.X + v.Y * v.Y }

  function SqrDistance(a: Vector2, b: Vector2): real { SqrMagnitude(Sub(b, a)) }

  /** `Cross` of two planar vectors: only the `Z` component can be non-zero. */
  function Cross(a: Vector2, b: Vector2): (r: Vector3)
    ensures r.X == 0.0 && r.Y == 0.0
  {
    Vector3(0.0, 0.0, a.X * b.Y - a.Y * b.X)
  }

  /** `Dot`, `SqrMagnitude` and `Cross` agree with the `Vector3` versions on the
      widened vectors. */
  lemma ProductsWiden(a: Vector2, b: Vector2)
    ensures Dot(a, b) == V3.Dot(ToVector3(a), ToVector3(b))
    ensures SqrMagnitude(a) == V3.SqrMagnitude(ToVector3(a))
    ensures Cross(a, b) == V3.Cross(ToVector3(a), ToVector3(b))
  {
  }

  /** `Dot` is symmetric and `Dot(a, a)` is the squared magnitude. */
  lemma DotLaws(a: Vector2, b: Vector2)
    ensures Dot(a, b) == Dot(b, a)
    ensures Dot(a, a) == SqrMagnitude(a)
  {
  }

  /** The `Z` of `Cross` is antisymmetric, so a vector crossed with itself is zero. */
  lemma CrossAntisymmetric(a: Vector2, b: Vector2)
    ensures Cross(a, b).Z == -Cross(b, a).Z
    ensures Cross(a, a) == V3.Zero
  {
  }

  /** `Right x Up` points along `Vector3.Forward`. */
  lemma CrossBasis()
    ensures Cross(Right, Up) == V3.Forward
  {
  }

  /** The squared magnitude is never negative, and it is exactly zero only for
      the zero vector. */
  lemma SqrMagnitudeZero(v: Vector2)
    ensures 0.0 <= SqrMagnitude(v)
    ensures SqrMagnitude(v) == 0.0 <==> v == Zero
  {
    SumOfTwoSquares(v.X, v.Y);
  }

  /** Two vectors are equal exactly when their difference is zero. */
  lemma SubZero(a: Vector2, b: Vector2)
    ensures Sub(b, a) == Zero <==> a == b
  {
  }

  /** `SqrDistance` is symmetric and zero exactly between equal vectors. */
  lemma SqrDistanceLaws(a: Vector2, b: Vector2)
    ensures SqrDistance(a, b) == SqrDistance(b, a)
    ensures SqrDistance(a, b) == 0.0 <==> a == b
  {
    SquaredDifference(a.X, b.X);
    SquaredDifference(a.Y, b.Y);
    assert SqrDistance(a, b) == 0.0 <==> Sub(b, a) == Zero by {
      SqrMagnitudeZero(Sub(b, a));
    }
    SubZero(a, b);
  }

  // Normalisation, reflection, projections.

  /** `Normalized()`. `Math.Sqrt(SqrMagnitude())` is passed in as `root`. */
  function Normalized(v: Vector2, root: real): (r: Vector2)
    requires IsRoot(root, SqrMagnitude(v))
    ensures !(SqrMagnitude(v) > 0.0) ==> r == Zero
    ensures SqrMagnitude(v) > 0.0 ==> SqrMagnitude(r) == 1.0 && MulScalar(r, root) == v
  {
    var sqrMag := SqrMagnitude(v);
    if sqrMag > 0.0 then
      RootZero(root, sqrMag);
      NormalizedWidens(v, root);
      DivThenMul(v, root);
      Div(v, root)
    else
      Zero
  }

  /** Dividing by the root of the squared magnitude gives a unit vector; the
      proof goes through `Vector3`. */
  lemma NormalizedWidens(v: Vector2, root: real)
    requires IsRoot(root, SqrMagnitude(v)) && root != 0.0
    ensures SqrMagnitude(Div(v, root)) == 1.0
  {
    ProductsWiden(v, v);
    ProductsWiden(Div(v, root), v);
    DivWidens(v, root);
    V3.DivByRootIsUnit(ToVector3(v), root);
  }

  /** Normalizing keeps only the zero vector at zero. */
  lemma NormalizedZero(v: Vector2, root: real)
    requires IsRoot(root, SqrMagnitude(v))
    ensures Normalized(v, root) == Zero <==> v == Zero
  {
    SqrMagnitudeZero(v);
    if v != Zero {
      SqrMagnitudeZero(Normalized(v, root));
    }
  }

  /** `Reflect(normal)`: `normal * (-2 * Dot(normal, this)) + this`. */
  function Reflect(v: Vector2, normal: Vector2): (r: Vector2)
    ensures normal == Zero ==> r == v
    ensures ToVector3(r) == V3.Reflect(ToVector3(v), ToVector3(normal))
  {
    var factor := -2.0 * Dot(normal, v);
    Add(MulScalar(normal, factor), v)
  }

  /** For a unit normal, reflecting negates the component along the normal,
      and reflecting twice gives back the original vector. */
  lemma ReflectUnit(v: Vector2, n: Vector2)
    requires SqrMagnitude(n) == 1.0
    ensures Dot(n, Reflect(v, n)) == -Dot(n, v)
    ensures Reflect(Reflect(v, n), n) == v
  {
    var w := Reflect(v, n);
    ProductsWiden(n, n);
    ProductsWiden(n, v);
    ProductsWiden(n, w);
    V3.ReflectUnit(ToVector3(v), ToVector3(n));
    ToVector3IsTo3D(Reflect(w, n), v);
  }

  /** `Project(vector)`: the component of `v` along `onto`, or `Zero` when the
      squared magnitude of `onto` is literally zero. */
  function Project(v: Vector2, onto: Vector2): (r: Vector2)
    ensures SqrMagnitude(onto) == 0.0 ==> r == Zero
  {
    var sqrMag := SqrMagnitude(onto);
    if sqrMag == 0.0 then Zero else Div(MulScalar(onto, Dot(v, onto)), sqrMag)
  }

  /** `Project` is the `Vector3` projection of the widened vectors. */
  lemma ProjectWidens(v: Vector2, onto: Vector2)
    ensures ToVector3(Project(v, onto)) == V3.Project(ToVector3(v), ToVector3(onto))
  {
    ProductsWiden(v, onto);
    ProductsWiden(onto, onto);
  }

  /** What `Project` leaves over is orthogonal to the target, and projecting
      twice is projecting once. */
  lemma ProjectOrthogonal(v: Vector2, onto: Vector2)
    requires SqrMagnitude(onto) != 0.0
    ensures Dot(Sub(v, Project(v, onto)), onto) == 0.0
    ensures Project(Project(v, onto), onto) == Project(v, onto)
  {
    var p := Project(v, onto);
    ProductsWiden(onto, onto);
    ProjectWidens(v, onto);
    ProjectWidens(p, onto);
    OperatorsWiden(v, p, 0.0);
    ProductsWiden(Sub(v, p), onto);
    V3.ProjectOrthogonal(ToVector3(v), ToVector3(onto));
    ToVector3IsTo3D(Project(p, onto), p);
  }

  /** `ProjectOnPlane(planeNormal)`, with the formula the source uses:
      `(this - planeNormal) * Dot(this, planeNormal) / sqrMag`. */
  function ProjectOnPlane(v: Vector2, planeNormal: Vector2): (r: Vector2)
    ensures SqrMagnitude(planeNormal) == 0.0 ==> r == v
    ensures SqrMagnitude(planeNormal) != 0.0 ==>
      MulScalar(r, SqrMagnitude(planeNormal)) == MulScalar(Sub(v, planeNormal), Dot(v, planeNormal))
  {
    var sqrMag := SqrMagnitude(planeNormal);
    if sqrMag == 0.0 then v
    else
      DivThenMul(MulScalar(Sub(v, planeNormal), Dot(v, planeNormal)), sqrMag);
      Div(MulScalar(Sub(v, planeNormal), Dot(v, planeNormal)), sqrMag)
  }

  /** The formula is not the orthogonal projection onto the line orthogonal to
      the normal: for `v = (0, 2)` and normal `Up` it returns `v` itself, whose
      component along the normal is 2, where the orthogonal residual of `v` is `Zero`. */
  lemma ProjectOnPlaneIsNotOrthogonal()
    ensures ProjectOnPlane(Vector2(0.0, 2.0), Up) == Vector2(0.0, 2.0)
    ensures Dot(ProjectOnPlane(Vector2(0.0, 2.0), Up), Up) == 2.0
    ensures Sub(Vector2(0.0, 2.0), Project(Vector2(0.0, 2.0), Up)) == Zero
  {
    var v := Vector2(0.0, 2.0);
    assert SqrMagnitude(Up) == 1.0;
    assert Dot(v, Up) == 2.0;
    assert MulScalar(Up, 2.0) == v;
    assert Div(v, 1.0) == v;
    assert Sub(v, Up) == Up;
  }

  /** `ClampMagnitude(maxLength)`. `Math.Sqrt(SqrMagnitude())` is passed in as
      `root`. A vector no longer than `maxLength` is returned unchanged; a longer
      one is rescaled to squared length `maxLength * maxLength`. */
  function ClampMagnitude(v: Vector2, maxLength: real, root: real): (r: Vector2)
    requires IsRoot(root, SqrMagnitude(v))
    ensures SqrMagnitude(v) <= maxLength * maxLength ==> r == v
    ensures SqrMagnitude(v) > maxLength * maxLength ==>
      SqrMagnitude(r) == maxLength * maxLength && r == MulScalar(Normalized(v, root), maxLength)
  {
    var sqrmag := SqrMagnitude(v);
    if sqrmag > maxLength * maxLength then
      Square(maxLength);
      RootZero(root, sqrmag);
      NormalizedWidens(v, root);
      SqrMagnitudeScaled(Div(v, root), maxLength);
      MulScalar(Div(v, root), maxLength)
    else
      v
  }

  /** Scaling by `m` scales the squared magnitude by `m * m`. */
  lemma SqrMagnitudeScaled(v: Vector2, m: real)
    ensures SqrMagnitude(MulScalar(v, m)) == m * m * SqrMagnitude(v)
  {
    calc {
      SqrMagnitude(MulScalar(v, m));
    ==
      (v.X * m) * (v.X * m) + (v.Y * m) * (v.Y * m);
    ==
      m * m * (v.X * v.X + v.Y * v.Y);
    }
  }

  // Interpolation and componentwise bounds.

  /** `a + (b - a) * t`, componentwise, for any `t`. */
  function LerpUnclamped(a: Vector2, b: Vector2, t: real): (r: Vector2)
    ensures t == 0.0 ==> r == a
    ensures t == 1.0 ==> r == b
  {
    Vector2(Interpolate(a.X, b.X, t), Interpolate(a.Y, b.Y, t))
  }

  /** `LerpUnclamped` with `t` clamped into [0, 1] first. */
  function Lerp(a: Vector2, b: Vector2, t: real): (r: Vector2)
    ensures t <= 0.0 ==> r == a
    ensures 1.0 <= t ==> r == b
    ensures 0.0 <= t <= 1.0 ==> r == LerpUnclamped(a, b, t)
  {
    LerpUnclamped(a, b, Clamp(t, 0.0, 1.0))
  }

  /** Componentwise minimum: per axis, a lower bound of both inputs that is one of them. */
  function Min(a: Vector2, b: Vector2): (r: Vector2)
    ensures forall axis: PlanarAxis ::
      GetAxis(r, axis) <= GetAxis(a, axis) && GetAxis(r, axis) <= GetAxis(b, axis) &&
      (GetAxis(r, axis) == GetAxis(a, axis) || GetAxis(r, axis) == GetAxis(b, axis))
  {
    Vector2(RealArith.Min(a.X, b.X), RealArith.Min(a.Y, b.Y))
  }

  /** Componentwise maximum: per axis, an upper bound of both inputs that is one of them. */
  function Max(a: Vector2, b: Vector2): (r: Vector2)
    ensures forall axis: PlanarAxis ::
      GetAxis(a, axis) <= GetAxis(r, axis) && GetAxis(b, axis) <= GetAxis(r, axis) &&
      (GetAxis(r, axis) == GetAxis(a, axis) || GetAxis(r, axis) == GetAxis(b, axis))
  {
    Vector2(RealArith.Max(a.X, b.X), RealArith.Max(a.Y, b.Y))
  }

  /** `MinMax` orders each axis on its own with `<`; the pair it builds is
      exactly `(Min(a, b), Max(a, b))`. */
  function MinMax(a: Vector2, b: Vector2): (r: (Vector2, Vector2))
    ensures r == (Min(a, b), Max(a, b))
    ensures forall axis: PlanarAxis :: GetAxis(r.0, axis) <= GetAxis(r.1, axis)
  {
    var (minX, maxX) := if a.X < b.X then (a.X, b.X) else (b.X, a.X);
    var (minY, maxY) := if a.Y < b.Y then (a.Y, b.Y) else (b.Y, a.Y);
    (Vector2(minX, minY), Vector2(maxX, maxY))
  }

  /** On one axis, `Lerp` stays between the two end points. */
  lemma LerpAxisWithinBounds(a: Vector2, b: Vector2, t: real, axis: PlanarAxis)
    ensures GetAxis(Min(a, b), axis) <= GetAxis(Lerp(a, b, t), axis) <= GetAxis(Max(a, b), axis)
  {
    var c := Clamp(t, 0.0, 1.0);
    assert GetAxis(Lerp(a, b, t), axis) == Interpolate(GetAxis(a, axis), GetAxis(b, axis), c);
    assert GetAxis(Min(a, b), axis) == RealArith.Min(GetAxis(a, axis), GetAxis(b, axis));
    assert GetAxis(Max(a, b), axis) == RealArith.Max(GetAxis(a, axis), GetAxis(b, axis));
    BetweenEnds(GetAxis(a, axis), GetAxis(b, axis), c);
  }

  /** `Lerp` never leaves the box spanned by its two end points. */
  lemma LerpWithinBounds(a: Vector2, b: Vector2, t: real)
    ensures forall axis: PlanarAxis ::
      GetAxis(Min(a, b), axis) <= GetAxis(Lerp(a, b, t), axis) <= GetAxis(Max(a, b), axis)
  {
    forall axis: PlanarAxis {
      LerpAxisWithinBounds(a, b, t, axis);
    }
  }

  // Angles, through `Vector3`.

  /** `Angle(from, to)`: `Vector3.Angle` of the widened vectors.
      `Math.Sqrt(from.SqrMagnitude() * to.SqrMagnitude())` is passed in as `root`,
      and `x => Math.Acos(x) * 180 / Math.PI` as `arccosDegrees`. */
  function Angle(from: Vector2, to: Vector2, root: real, arccosDegrees: real -> real): (r: real)
    requires IsRoot(root, SqrMagnitude(from) * SqrMagnitude(to))
    ensures from == Zero || to == Zero ==> r == 0.0
    ensures root != 0.0 ==> r == arccosDegrees(Dot(from, to) / root)
    ensures root != 0.0 <==> from != Zero && to != Zero
  {
    ProductsWiden(from, to);
    ProductsWiden(to, to);
    ProductsWiden(from, from);
    ToVector3IsTo3D(from, Zero);
    ToVector3IsTo3D(to, Zero);
    V3.Angle(ToVector3(from), ToVector3(to), root, arccosDegrees)
  }

  /** `SignedAngle(from, to, axis)` as written: `Vector3.SignedAngle` of the
      widened vectors. The widened `axis` lies in the plane, so it is orthogonal
      to the cross product and the sign factor is always zero. */
  function SignedAngle(from: Vector2, to: Vector2, axis: Vector2, root: real, arccosDegrees: real -> real): (r: real)
    requires IsRoot(root, SqrMagnitude(from) * SqrMagnitude(to))
    ensures r == 0.0
  {
    ProductsWiden(from, to);
    ProductsWiden(to, to);
    ProductsWiden(from, from);
    V3.SignedAngle(ToVector3(from), ToVector3(to), ToVector3(axis), root, arccosDegrees)
  }

  /** Whenever the two vectors make a non-zero angle and are not parallel, the
      as-written `SignedAngle` still returns 0, where the angle measured about the
      plane's normal does not. */
  lemma SignedAngleLosesDirection(from: Vector2, to: Vector2, axis: Vector2, root: real, arccosDegrees: real -> real)
    requires IsRoot(root, SqrMagnitude(from) * SqrMagnitude(to))
    requires Cross(from, to).Z != 0.0 && Angle(from, to, root, arccosDegrees) != 0.0
    ensures SignedAngle(from, to, axis, root, arccosDegrees) == 0.0
    ensures SignedAngleAboutNormal(from, to, root, arccosDegrees) != 0.0
  {
  }

  /** The signed angle of two planar vectors measured about the plane's normal
      `Vector3.Forward`: positive for a counter-clockwise turn from `from` to `to`. */
  function SignedAngleAboutNormal(from: Vector2, to: Vector2, root: real, arccosDegrees: real -> real): (r: real)
    requires IsRoot(root, SqrMagnitude(from) * SqrMagnitude(to))
    ensures Cross(from, to).Z > 0.0 ==> r == Angle(from, to, root, arccosDegrees)
    ensures Cross(from, to).Z < 0.0 ==> r == -Angle(from, to, root, arccosDegrees)
    ensures Cross(from, to).Z == 0.0 ==> r == 0.0
  {
    Angle(from, to, root, arccosDegrees) * Sign(Cross(from, to).Z)
  }

  /** `SignedAngleAboutNormal` is `Vector3.SignedAngle` of the widened vectors
      about `Vector3.Forward`. */
  lemma SignedAngleAboutNormalWidens(from: Vector2, to: Vector2, root: real, arccosDegrees: real -> real)
    requires IsRoot(root, SqrMagnitude(from) * SqrMagnitude(to))
    ensures IsRoot(root, V3.SqrMagnitude(ToVector3(from)) * V3.SqrMagnitude(ToVector3(to)))
    ensures SignedAngleAboutNormal(from, to, root, arccosDegrees) ==
      V3.SignedAngle(ToVector3(from), ToVector3(to), V3.Forward, root, arccosDegrees)
  {
    ProductsWiden(from, to);
    ProductsWiden(to, to);
    ProductsWiden(from, from);
  }

  /** Swapping the vectors flips the sign of `SignedAngleAboutNormal`. */
  lemma SignedAngleAboutNormalAntisymmetric(from: Vector2, to: Vector2, root: real, arccosDegrees: real -> real)
    requires IsRoot(root, SqrMagnitude(from) * SqrMagnitude(to))
    ensures IsRoot(root, SqrMagnitude(to) * SqrMagnitude(from))
    ensures SignedAngleAboutNormal(to, from, root, arccosDegrees) == -SignedAngleAboutNormal(from, to, root, arccosDegrees)
  {
    DotLaws(from, to);
    CrossAntisymmetric(from, to);
  }

  /** A `Vector2` variable, for `Normalize()`, which reassigns its receiver. */
  class Vector2Var {
    var X: real
    var Y: real

    function Value(): Vector2
      reads this
    {
      Vector2(X, Y)
    }

    constructor (v: Vector2)
      ensures Value() == v
    {
      X, Y := v.X, v.Y;
    }

    /** `Normalize()`: assigns `Normalized()` to the receiver and returns it.
        `Math.Sqrt(SqrMagnitude())` is passed in as `root`. */
    method Normalize(root: real) returns (r: Vector2)
      requires IsRoot(root, SqrMagnitude(Value()))
      modifies this
      ensures Value() == Normalized(old(Value()), root) && r == Value()
      ensures old(Value()) == Zero ==> Value() == Zero
      ensures old(Value()) != Zero ==> SqrMagnitude(Value()) == 1.0
    {
      r := Normalized(Value(), root);
      SqrMagnitudeZero(Value());
      X, Y := r.X, r.Y;
    }
  }
}
