/** `Vector3`: three double components, here exact reals. */
module Vector3Ops {
  import opened VectorTypes
  import opened RealArith

  const Zero := Vector3(0.0, 0.0, 0.0)
  const One := Vector3(1.0, 1.0, 1.0)
  const Right := Vector3(1.0, 0.0, 0.0)
  const Left := Vector3(-1.0, 0.0, 0.0)
  const Up := Vector3(0.0, 1.0, 0.0)
  const Down := Vector3(0.0, -1.0, 0.0)
  const Forward := Vector3(0.0, 0.0, 1.0)
  const Back := Vector3(0.0, 0.0, -1.0)

  // Axis-pair swizzles: each keeps two components in the named order.

  function XY(v: Vector3): Vector2 { Vector2(v.X, v.Y) }
  function YX(v: Vector3): Vector2 { Vector2(v.Y, v.X) }
  function XZ(v: Vector3): Vector2 { Vector2(v.X, v.Z) }
  function ZX(v: Vector3): Vector2 { Vector2(v.Z, v.X) }
  function YZ(v: Vector3): Vector2 { Vector2(v.Y, v.Z) }
  function ZY(v: Vector3): Vector2 { Vector2(v.Z, v.Y) }

  function GetAxis(v: Vector3, axis: Axis): real
  {
    match axis
    case X => v.X
    case Y => v.Y
    case Z => v.Z
  }

  /** Each swizzle keeps the two named axes in the named order and drops the
      third; a swizzle together with the dropped axis determines the vector. */
  lemma SwizzlesKeepOrder(v: Vector3, w: Vector3)
    ensures XY(v) == Vector2(GetAxis(v, Axis.X), GetAxis(v, Axis.Y))
    ensures YX(v) == Vector2(GetAxis(v, Axis.Y), GetAxis(v, Axis.X))
    ensures XZ(v) == Vector2(GetAxis(v, Axis.X), GetAxis(v, Axis.Z))
    ensures ZX(v) == Vector2(GetAxis(v, Axis.Z), GetAxis(v, Axis.X))
    ensures YZ(v) == Vector2(GetAxis(v, Axis.Y), GetAxis(v, Axis.Z))
    ensures ZY(v) == Vector2(GetAxis(v, Axis.Z), GetAxis(v, Axis.Y))
    ensures XY(v) == XY(w) && v.Z == w.Z ==> v == w
    ensures XZ(v) == XZ(w) && v.Y == w.Y ==> v == w
    ensures YZ(v) == YZ(w) && v.X == w.X ==> v == w
  {
  }

  // Operators.

  function Add(a: Vector3, b: Vector3): Vector3 { Vector3(a.X + b.X, a.Y + b.Y, a.Z + b.Z) }
  function Sub(a: Vector3, b: Vector3): Vector3 { Vector3(a.X - b.X, a.Y - b.Y, a.Z - b.Z) }
  function Neg(a: Vector3): Vector3 { Vector3(-a.X, -a.Y, -a.Z) }
  function MulScalar(a: Vector3, b: real): Vector3 { Vector3(a.X * b, a.Y * b, a.Z * b) }
  function ScalarMul(a: real, b: Vector3): Vector3 { MulScalar(b, a) }
  function Div(a: Vector3, b: real): Vector3
    requires b != 0.0
  {
    Vector3(a.X / b, a.Y / b, a.Z / b)
  }

  /** `a - b == -(b - a)`, and subtraction is addition of the negation. */
  lemma SubAntisymmetric(a: Vector3, b: Vector3)
    ensures Sub(a, b) == Neg(Sub(b, a))
    ensures Sub(a, b) == Add(a, Neg(b))
  {
  }

  /** Dividing by `b` is undone by multiplying by `b`, from either side. */
  lemma DivThenMul(a: Vector3, b: real)
    requires b != 0.0
    ensures MulScalar(Div(a, b), b) == a
    ensures ScalarMul(b, Div(a, b)) == a
  {
    DivMulCancel(a.X, b);
    DivMulCancel(a.Y, b);
    DivMulCancel(a.Z, b);
  }

  // Tuple conversions.

  function ToTuple(v: Vector3): (real, real, real) { (v.X, v.Y, v.Z) }
  function FromTuple(t: (real, real, real)): Vector3 { Vector3(t.0, t.1, t.2) }

  /** Converting to a tuple and back, in either order, reproduces the components. */
  lemma TupleRoundTrip(v: Vector3, t: (real, real, real))
    ensures FromTuple(ToTuple(v)) == v
    ensures ToTuple(FromTuple(t)) == t
  {
  }

  // Products and magnitudes.

  /** Componentwise product (not the dot product). */
  function Scale(a: Vector3, other: Vector3): Vector3
  {
    Vector3(a.X * other.X, a.Y * other.Y, a.Z * other.Z)
  }

  /** `Scale` is commutative and `One` is its identity. */
  lemma ScaleLaws(a: Vector3, b: Vector3)
    ensures Scale(a, b) == Scale(b, a)
    ensures Scale(a, One) == a
  {
  }

  function Dot(a: Vector3, b: Vector3): real { a.X * b.X + a.Y * b.Y + a.Z * b.Z }

  function Cross(a: Vector3, b: Vector3): Vector3
  {
    Vector3(a.Y * b.Z - a.Z * b.Y, a.Z * b.X - a.X * b.Z, a.X * b.Y - a.Y * b.X)
  }

  function SqrMagnitude(v: Vector3): real { v.X * v.X + v.Y * v.Y + v.Z * v.Z }

  function SqrDistance(a: Vector3, b: Vector3): real { SqrMagnitude(Sub(b, a)) }

  /** The squared magnitude is never negative, and it is exactly zero only for
      the zero vector (exact reals; see the notes on underflow). */
  lemma SqrMagnitudeZero(v: Vector3)
    ensures 0.0 <= SqrMagnitude(v)
    ensures SqrMagnitude(v) == 0.0 <==> v == Zero
  {
    SumOfSquares(v.X, v.Y, v.Z);
  }

  /** `Dot` is symmetric and `Dot(a, a)` is the squared magnitude. */
  lemma DotLaws(a: Vector3, b: Vector3)
    ensures Dot(a, b) == Dot(b, a)
    ensures Dot(a, a) == SqrMagnitude(a)
  {
  }

  /** `Dot` is linear in its first argument. */
  lemma DotScaled(u: Vector3, k: real, w: Vector3)
    ensures Dot(MulScalar(u, k), w) == k * Dot(u, w)
  {
  }

  lemma DotSub(u: Vector3, v: Vector3, w: Vector3)
    ensures Dot(Sub(u, v), w) == Dot(u, w) - Dot(v, w)
  {
  }

  lemma DotAdd(u: Vector3, v: Vector3, w: Vector3)
    ensures Dot(Add(u, v), w) == Dot(u, w) + Dot(v, w)
  {
  }

  /** Scaling by `d` and then dividing by `s` is scaling by `d / s`. */
  lemma ScaledThenDivided(u: Vector3, d: real, s: real)
    requires s != 0.0
    ensures Div(MulScalar(u, d), s) == MulScalar(u, d / s)
  {
  }

  /** `Cross` is anticommutative, so a vector crossed with itself is zero. */
  lemma CrossAnticommutative(a: Vector3, b: Vector3)
    ensures Cross(a, b) == Neg(Cross(b, a))
    ensures Cross(a, a) == Zero
  {
  }

  /** The cross product is orthogonal to both of its operands. */
  lemma CrossOrthogonal(a: Vector3, b: Vector3)
    ensures Dot(a, Cross(a, b)) == 0.0
    ensures Dot(b, Cross(a, b)) == 0.0
  {
    calc {
      Dot(a, Cross(a, b));
    ==
      a.X * (a.Y * b.Z - a.Z * b.Y) + a.Y * (a.Z * b.X - a.X * b.Z) + a.Z * (a.X * b.Y - a.Y * b.X);
    ==
      0.0;
    }
    calc {
      Dot(b, Cross(a, b));
    ==
      b.X * (a.Y * b.Z - a.Z * b.Y) + b.Y * (a.Z * b.X - a.X * b.Z) + b.Z * (a.X * b.Y - a.Y * b.X);
    ==
      0.0;
    }
  }

  /** The named directions form a right-handed basis: `Right x Up == Forward`. */
  lemma CrossBasis()
    ensures Cross(Right, Up) == Forward
  {
  }

  /** Lagrange's identity: the squared dot product and the squared cross product
      add up to the product of the squared magnitudes. */
  lemma Lagrange(a: Vector3, b: Vector3)
    ensures Dot(a, b) * Dot(a, b) + SqrMagnitude(Cross(a, b)) == SqrMagnitude(a) * SqrMagnitude(b)
  {
    var c := Cross(a, b);
    calc {
      Dot(a, b) * Dot(a, b) + SqrMagnitude(c);
    ==
      (a.X * b.X + a.Y * b.Y + a.Z * b.Z) * (a.X * b.X + a.Y * b.Y + a.Z * b.Z)
      + (a.Y * b.Z - a.Z * b.Y) * (a.Y * b.Z - a.Z * b.Y)
      + (a.Z * b.X - a.X * b.Z) * (a.Z * b.X - a.X * b.Z)
      + (a.X * b.Y - a.Y * b.X) * (a.X * b.Y - a.Y * b.X);
    ==
      (a.X * a.X + a.Y * a.Y + a.Z * a.Z) * (b.X * b.X + b.Y * b.Y + b.Z * b.Z);
    }
  }

  /** Two vectors are equal exactly when their difference is zero. */
  lemma SubZero(a: Vector3, b: Vector3)
    ensures Sub(b, a) == Zero <==> a == b
  {
  }

  /** `SqrDistance` is symmetric and zero exactly between equal vectors. */
  lemma SqrDistanceLaws(a: Vector3, b: Vector3)
    ensures SqrDistance(a, b) == SqrDistance(b, a)
    ensures SqrDistance(a, b) == 0.0 <==> a == b
  {
    SquaredDifference(a.X, b.X);
    SquaredDifference(a.Y, b.Y);
    SquaredDifference(a.Z, b.Z);
    assert SqrDistance(a, b) == 0.0 <==> Sub(b, a) == Zero by {
      SqrMagnitudeZero(Sub(b, a));
    }
    SubZero(a, b);
  }

  /** Scaling by `m` scales the squared magnitude by `m * m`. */
  lemma SqrMagnitudeScaled(v: Vector3, m: real)
    ensures SqrMagnitude(MulScalar(v, m)) == m * m * SqrMagnitude(v)
  {
    calc {
      SqrMagnitude(MulScalar(v, m));
    ==
      (v.X * m) * (v.X * m) + (v.Y * m) * (v.Y * m) + (v.Z * m) * (v.Z * m);
    ==
      m * m * (v.X * v.X + v.Y * v.Y + v.Z * v.Z);
    }
  }

  /** Dividing by the root of the squared magnitude gives a unit vector. */
  lemma DivByRootIsUnit(v: Vector3, root: real)
    requires IsRoot(root, SqrMagnitude(v)) && root != 0.0
    ensures SqrMagnitude(Div(v, root)) == 1.0
  {
    var inv := 1.0 / root;
    assert Div(v, root) == MulScalar(v, inv);
    SqrMagnitudeScaled(v, inv);
    calc {
      inv * inv * SqrMagnitude(v);
    ==
      inv * inv * (root * root);
    ==
      (inv * root) * (inv * root);
    ==
      1.0;
    }
  }

  // Normalisation, reflection, projections.

  /** `Normalized()`. `Math.Sqrt(SqrMagnitude())` is passed in as `root`. */
  function Normalized(v: Vector3, root: real): (r: Vector3)
    requires IsRoot(root, SqrMagnitude(v))
    ensures !(SqrMagnitude(v) > 0.0) ==> r == Zero
    ensures SqrMagnitude(v) > 0.0 ==> SqrMagnitude(r) == 1.0 && MulScalar(r, root) == v
  {
    var sqrMag := SqrMagnitude(v);
    if sqrMag > 0.0 then
      RootZero(root, sqrMag);
      DivByRootIsUnit(v, root);
      DivThenMul(v, root);
      Div(v, root)
    else
      Zero
  }

  /** Normalizing keeps only the zero vector at zero. */
  lemma NormalizedZero(v: Vector3, root: real)
    requires IsRoot(root, SqrMagnitude(v))
    ensures Normalized(v, root) == Zero <==> v == Zero
  {
    SqrMagnitudeZero(v);
    if v != Zero {
      SqrMagnitudeZero(Normalized(v, root));
    }
  }

  /** `Reflect(normal)`: `normal * (-2 * Dot(normal, this)) + this`. */
  function Reflect(v: Vector3, normal: Vector3): (r: Vector3)
    ensures normal == Zero ==> r == v
  {
    var factor := -2.0 * Dot(normal, v);
    Add(MulScalar(normal, factor), v)
  }

  /** For a unit normal, reflecting negates the component along the normal,
      and reflecting twice gives back the original vector. */
  lemma ReflectUnit(v: Vector3, n: Vector3)
    requires SqrMagnitude(n) == 1.0
    ensures Dot(n, Reflect(v, n)) == -Dot(n, v)
    ensures Reflect(Reflect(v, n), n) == v
  {
    var d := Dot(n, v);
    var w := Reflect(v, n);
    DotLaws(n, w);
    DotLaws(n, v);
    DotLaws(n, n);
    DotAdd(MulScalar(n, -2.0 * d), v, n);
    DotScaled(n, -2.0 * d, n);
    assert Dot(w, n) == -2.0 * d * 1.0 + d;
  }

  /** `Project(vector)`: the component of `v` along `onto`, or `Zero` when the
      squared magnitude of `onto` is literally zero. */
  function Project(v: Vector3, onto: Vector3): (r: Vector3)
    ensures SqrMagnitude(onto) == 0.0 ==> r == Zero
  {
    var sqrMag := SqrMagnitude(onto);
    if sqrMag == 0.0 then Zero else Div(MulScalar(onto, Dot(v, onto)), sqrMag)
  }

  /** What `Project` leaves over is orthogonal to the target, and projecting
      twice is projecting once. */
  lemma ProjectOrthogonal(v: Vector3, onto: Vector3)
    requires SqrMagnitude(onto) != 0.0
    ensures Dot(Sub(v, Project(v, onto)), onto) == 0.0
    ensures Project(Project(v, onto), onto) == Project(v, onto)
  {
    var s := SqrMagnitude(onto);
    var d := Dot(v, onto);
    var k := d / s;
    var p := Project(v, onto);
    ScaledThenDivided(onto, d, s);
    assert p == MulScalar(onto, k);
    DotLaws(onto, onto);
    DotScaled(onto, k, onto);
    DivMulCancel(d, s);
    assert Dot(p, onto) == d;
    DotSub(v, p, onto);
  }

  /** `ProjectOnPlane(planeNormal)`, with the formula the source uses:
      `(this - planeNormal) * Dot(this, planeNormal) / sqrMag`. */
  function ProjectOnPlane(v: Vector3, planeNormal: Vector3): (r: Vector3)
    ensures SqrMagnitude(planeNormal) == 0.0 ==> r == v
    ensures SqrMagnitude(planeNormal) != 0.0 ==>
      MulScalar(r, SqrMagnitude(planeNormal)) == MulScalar(Sub(v, planeNormal), Dot(v, planeNormal))
  {
    var sqrMag := SqrMagnitude(planeNormal);
    if sqrMag == 0.0 then v
    else
      DivThenMul(MulScalar(Sub(v, planeNormal), Dot(v, planeNormal)), sqrMag);
      Div(MulScalar(Sub(v, planeNormal), Dot(v, planeNormal)), sqrMag)
  }

  /** The formula is not the orthogonal projection onto the plane: for
      `v = (0, 0, 2)` and normal `Forward` it returns `v` itself, which is not in
      the plane, where the orthogonal projection `v - n * Dot(v, n) / |n|^2`
      is `Zero`. */
  lemma ProjectOnPlaneIsNotOrthogonal()
    ensures ProjectOnPlane(Vector3(0.0, 0.0, 2.0), Forward) == Vector3(0.0, 0.0, 2.0)
    ensures Dot(ProjectOnPlane(Vector3(0.0, 0.0, 2.0), Forward), Forward) == 2.0
    ensures Sub(Vector3(0.0, 0.0, 2.0), Project(Vector3(0.0, 0.0, 2.0), Forward)) == Zero
  {
    var v := Vector3(0.0, 0.0, 2.0);
    assert SqrMagnitude(Forward) == 1.0;
    assert Dot(v, Forward) == 2.0;
    assert MulScalar(Forward, 2.0) == v;
    assert Div(v, 1.0) == v;
    assert Sub(v, Forward) == Forward;
  }

  /** `ClampMagnitude(maxLength)`. `Math.Sqrt(SqrMagnitude())` is passed in as
      `root`. A vector no longer than `maxLength` is returned unchanged; a longer
      one is rescaled to squared length `maxLength * maxLength`. */
  function ClampMagnitude(v: Vector3, maxLength: real, root: real): (r: Vector3)
    requires IsRoot(root, SqrMagnitude(v))
    ensures SqrMagnitude(v) <= maxLength * maxLength ==> r == v
    ensures SqrMagnitude(v) > maxLength * maxLength ==>
      SqrMagnitude(r) == maxLength * maxLength && r == MulScalar(Normalized(v, root), maxLength)
  {
    var sqrmag := SqrMagnitude(v);
    if sqrmag > maxLength * maxLength then
      Square(maxLength);
      RootZero(root, sqrmag);
      DivByRootIsUnit(v, root);
      SqrMagnitudeScaled(Div(v, root), maxLength);
      MulScalar(Div(v, root), maxLength)
    else
      v
  }

  // Interpolation, bounds, products of two vectors.

  /** `a + (b - a) * t`, componentwise, for any `t`. */
  function LerpUnclamped(a: Vector3, b: Vector3, t: real): (r: Vector3)
    ensures t == 0.0 ==> r == a
    ensures t == 1.0 ==> r == b
  {
    Vector3(Interpolate(a.X, b.X, t), Interpolate(a.Y, b.Y, t), Interpolate(a.Z, b.Z, t))
  }

  /** `LerpUnclamped` with `t` clamped into [0, 1] first. */
  function Lerp(a: Vector3, b: Vector3, t: real): (r: Vector3)
    ensures t <= 0.0 ==> r == a
    ensures 1.0 <= t ==> r == b
    ensures 0.0 <= t <= 1.0 ==> r == LerpUnclamped(a, b, t)
  {
    LerpUnclamped(a, b, Clamp(t, 0.0, 1.0))
  }

  /** Per axis, `Lerp` computes the scalar interpolation with the clamped `t`. */
  lemma LerpAxis(a: Vector3, b: Vector3, t: real, axis: Axis)
    ensures GetAxis(Lerp(a, b, t), axis) == Interpolate(GetAxis(a, axis), GetAxis(b, axis), Clamp(t, 0.0, 1.0))
  {
  }

  /** On one axis, `Lerp` stays between the two end points. */
  lemma LerpAxisWithinBounds(a: Vector3, b: Vector3, t: real, axis: Axis)
    ensures GetAxis(Min(a, b), axis) <= GetAxis(Lerp(a, b, t), axis) <= GetAxis(Max(a, b), axis)
  {
    LerpAxis(a, b, t, axis);
    MinMaxAxis(a, b, axis);
    BetweenEnds(GetAxis(a, axis), GetAxis(b, axis), Clamp(t, 0.0, 1.0));
  }

  /** `Lerp` never leaves the box spanned by its two end points. */
  lemma LerpWithinBounds(a: Vector3, b: Vector3, t: real)
    ensures forall axis: Axis ::
      GetAxis(Min(a, b), axis) <= GetAxis(Lerp(a, b, t), axis) <= GetAxis(Max(a, b), axis)
  {
    forall axis: Axis {
      LerpAxisWithinBounds(a, b, t, axis);
    }
  }

  /** Componentwise minimum: per axis, a lower bound of both inputs that is one of them. */
  function Min(a: Vector3, b: Vector3): (r: Vector3)
    ensures forall axis: Axis ::
      GetAxis(r, axis) <= GetAxis(a, axis) && GetAxis(r, axis) <= GetAxis(b, axis) &&
      (GetAxis(r, axis) == GetAxis(a, axis) || GetAxis(r, axis) == GetAxis(b, axis))
  {
    Vector3(RealArith.Min(a.X, b.X), RealArith.Min(a.Y, b.Y), RealArith.Min(a.Z, b.Z))
  }

  /** Componentwise maximum: per axis, an upper bound of both inputs that is one of them. */
  function Max(a: Vector3, b: Vector3): (r: Vector3)
    ensures forall axis: Axis ::
      GetAxis(a, axis) <= GetAxis(r, axis) && GetAxis(b, axis) <= GetAxis(r, axis) &&
      (GetAxis(r, axis) == GetAxis(a, axis) || GetAxis(r, axis) == GetAxis(b, axis))
  {
    Vector3(RealArith.Max(a.X, b.X), RealArith.Max(a.Y, b.Y), RealArith.Max(a.Z, b.Z))
  }

  /** Per axis, `Min` and `Max` are the scalar minimum and maximum. */
  lemma MinMaxAxis(a: Vector3, b: Vector3, axis: Axis)
    ensures GetAxis(Min(a, b), axis) == RealArith.Min(GetAxis(a, axis), GetAxis(b, axis))
    ensures GetAxis(Max(a, b), axis) == RealArith.Max(GetAxis(a, axis), GetAxis(b, axis))
  {
  }

  /** `MinMax` orders each axis on its own with `<`; the pair it builds is
      exactly `(Min(a, b), Max(a, b))`. */
  function MinMax(a: Vector3, b: Vector3): (r: (Vector3, Vector3))
    ensures r == (Min(a, b), Max(a, b))
    ensures forall axis: Axis :: GetAxis(r.0, axis) <= GetAxis(r.1, axis)
  {
    var (minX, maxX) := if a.X < b.X then (a.X, b.X) else (b.X, a.X);
    var (minY, maxY) := if a.Y < b.Y then (a.Y, b.Y) else (b.Y, a.Y);
    var (minZ, maxZ) := if a.Z < b.Z then (a.Z, b.Z) else (b.Z, a.Z);
    (Vector3(minX, minY, minZ), Vector3(maxX, maxY, maxZ))
  }

  /** The cosine `Angle` feeds to `Acos`: `Dot / denominator` clamped into [-1, 1]. */
  function AngleCosine(from: Vector3, to: Vector3, denominator: real): (r: real)
    requires denominator != 0.0
    ensures -1.0 <= r <= 1.0
  {
    Clamp(Dot(from, to) / denominator, -1.0, 1.0)
  }

  /** With exact arithmetic the clamp in `Angle` never changes its argument:
      by Lagrange's identity the dot product is bounded by the denominator. */
  lemma AngleCosineUnclamped(from: Vector3, to: Vector3, root: real)
    requires IsRoot(root, SqrMagnitude(from) * SqrMagnitude(to)) && root != 0.0
    ensures AngleCosine(from, to, root) == Dot(from, to) / root
  {
    var d := Dot(from, to);
    var c := SqrMagnitude(Cross(from, to));
    assert d * d + c == SqrMagnitude(from) * SqrMagnitude(to) by {
      Lagrange(from, to);
    }
    assert 0.0 <= c by {
      SqrMagnitudeZero(Cross(from, to));
    }
    calc {
      d * d;
    <=
      d * d + c;
    ==
      SqrMagnitude(from) * SqrMagnitude(to);
    ==
      root * root;
    }
    RatioBounded(d, root);
  }

  /** The product of two squared magnitudes is zero exactly when one of the
      vectors is zero. */
  lemma SqrMagnitudeProductZero(from: Vector3, to: Vector3)
    ensures SqrMagnitude(from) * SqrMagnitude(to) == 0.0 <==> from == Zero || to == Zero
  {
    SqrMagnitudeZero(from);
    SqrMagnitudeZero(to);
    ProductZero(SqrMagnitude(from), SqrMagnitude(to));
  }

  /** The denominator of `Angle` is zero exactly when one of the vectors is zero. */
  lemma AngleDenominatorZero(from: Vector3, to: Vector3, root: real)
    requires IsRoot(root, SqrMagnitude(from) * SqrMagnitude(to))
    ensures root == 0.0 <==> from == Zero || to == Zero
  {
    RootZero(root, SqrMagnitude(from) * SqrMagnitude(to));
    SqrMagnitudeProductZero(from, to);
  }

  /** `Angle(from, to)` in degrees. `Math.Sqrt(from.SqrMagnitude() * to.SqrMagnitude())`
      is passed in as `root`, and `x => Math.Acos(x) * 180 / Math.PI` as `arccosDegrees`. */
  function Angle(from: Vector3, to: Vector3, root: real, arccosDegrees: real -> real): (r: real)
    requires IsRoot(root, SqrMagnitude(from) * SqrMagnitude(to))
    ensures from == Zero || to == Zero ==> r == 0.0
    ensures root != 0.0 ==> r == arccosDegrees(Dot(from, to) / root)
    ensures root != 0.0 <==> from != Zero && to != Zero
  {
    var denominator := root;
    AngleDenominatorZero(from, to, root);
    if denominator == 0.0 then
      0.0
    else
      AngleCosineUnclamped(from, to, root);
      arccosDegrees(AngleCosine(from, to, denominator))
  }

  /** `SignedAngle(from, to, axis)`: the angle, signed by which side of the
      `from`/`to` plane `axis` lies on. */
  function SignedAngle(from: Vector3, to: Vector3, axis: Vector3, root: real, arccosDegrees: real -> real): (r: real)
    requires IsRoot(root, SqrMagnitude(from) * SqrMagnitude(to))
    ensures from == Zero || to == Zero ==> r == 0.0
    ensures Dot(axis, Cross(from, to)) == 0.0 ==> r == 0.0
    ensures Dot(axis, Cross(from, to)) > 0.0 ==> r == Angle(from, to, root, arccosDegrees)
    ensures Dot(axis, Cross(from, to)) < 0.0 ==> r == -Angle(from, to, root, arccosDegrees)
    ensures r == Angle(from, to, root, arccosDegrees) || r == -Angle(from, to, root, arccosDegrees) || r == 0.0
  {
    Angle(from, to, root, arccosDegrees) * Sign(Dot(axis, Cross(from, to)))
  }

  /** Swapping the two vectors keeps the angle. */
  lemma AngleSymmetric(from: Vector3, to: Vector3, root: real, arccosDegrees: real -> real)
    requires IsRoot(root, SqrMagnitude(from) * SqrMagnitude(to))
    ensures IsRoot(root, SqrMagnitude(to) * SqrMagnitude(from))
    ensures Angle(to, from, root, arccosDegrees) == Angle(from, to, root, arccosDegrees)
  {
    DotLaws(from, to);
  }

  /** Swapping the two vectors flips the signed angle. */
  lemma SignedAngleAntisymmetric(from: Vector3, to: Vector3, axis: Vector3, root: real, arccosDegrees: real -> real)
    requires IsRoot(root, SqrMagnitude(from) * SqrMagnitude(to))
    ensures IsRoot(root, SqrMagnitude(to) * SqrMagnitude(from))
    ensures SignedAngle(to, from, axis, root, arccosDegrees) == -SignedAngle(from, to, axis, root, arccosDegrees)
  {
    AngleSymmetric(from, to, root, arccosDegrees);
    CrossAnticommutative(from, to);
    assert Dot(axis, Cross(to, from)) == -Dot(axis, Cross(from, to));
  }

  /** A `Vector3` variable, for the one operation that updates one in place. */
  class Vector3Var {
    var X: real
    var Y: real
    var Z: real

    function Value(): Vector3
      reads this
    {
      Vector3(X, Y, Z)
    }

    constructor (v: Vector3)
      ensures Value() == v
    {
      X, Y, Z := v.X, v.Y, v.Z;
    }

    /** `Normalize()`: overwrites the components with `Normalized()`.
        `Math.Sqrt(SqrMagnitude())` is passed in as `root`. */
    method Normalize(root: real)
      requires IsRoot(root, SqrMagnitude(Value()))
      modifies this
      ensures Value() == Normalized(old(Value()), root)
      ensures old(Value()) == Zero ==> Value() == Zero
      ensures old(Value()) != Zero ==> SqrMagnitude(Value()) == 1.0
    {
      var normalized := Normalized(Value(), root);
      SqrMagnitudeZero(Value());
      X, Y, Z := normalized.X, normalized.Y, normalized.Z;
    }
  }
}
