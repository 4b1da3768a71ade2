# A verified model of the 3dStuff vector types

This project models the four vector value types of the `3dStuff` library:

- `Vector2` and `Vector3`, with double components;
- `Vector2Int` and `Vector3Int`, with 32-bit `int` components.

It covers the following:

- component access through `GetAxis`;
- the swizzles `XY` … `ZY` and the promotion `To3D`;
- the arithmetic operators;
- `Scale` / `ScaleInt`, `Dot`, `Cross`;
- the squared magnitudes and distances;
- `Min`, `Max`, `MinMax`, `Lerp` / `LerpUnclamped`;
- the guarded operations `Normalized`, `Reflect`, `Project`, `ProjectOnPlane`, `ClampMagnitude`, `Angle` and `SignedAngle`;
- the value-tuple conversions;
- the implicit and explicit conversions between the int and double types;
- the in-place `Normalize()` of `Vector2` and `Vector3`.

How the source's types and foreign calls are modelled:

- **Doubles** are exact `real`s.
- **C# `int`** is the subset type `Int32Arith.Int32`. Every sum, difference, product and negation goes through `Wrap`, because the source's integer arithmetic is unchecked and wraps modulo 2^32. The ring identities are therefore proved across overflow.
- **Axes.** `Vector2.Axis`, `Vector2Int.Axis` and `Vector3Int.Axis` are declared with the values of `Vector3.Axis`, so one datatype `Axis` serves all four structs. The two-dimensional ones take the subset `PlanarAxis`.
- **Square roots.** `Math.Sqrt` is a foreign call. An operation that needs a square root takes it as a parameter `root`, constrained by `IsRoot(root, s)`, which says `root >= 0` and `root * root == s`.
- **Arc cosine.** `Math.Acos(x) * 180 / Math.PI` is the function parameter `arccosDegrees`.

Modules:

- `Int32Arith` (int32.dfy): wrapping arithmetic and the truncating `(int)` cast.
- `RealArith` (real_arith.dfy): `Math.Clamp`, `Math.Min`, `Math.Max`, `Math.Sign` and facts about products.
- `VectorTypes` (vector_types.dfy): the axis datatype and the four vector datatypes.
- `Vector3Ops`, `Vector2Ops`, `Vector3IntOps`, `Vector2IntOps`: one module per source file.

Each struct is a value type and nearly all of its members are expressions, so they are functions. The one member that updates its receiver, `Normalize()`, is a method on the small classes `Vector3Ops.Vector3Var` and `Vector2Ops.Vector2Var`.

## Model

| member | source | states |
|---|---|---|
| Int32Arith.Wrap | 3dStuff/Vectors/Vector3Int.cs:67-70 | reduces an integer into the 32-bit range by adding 2^31, taking the Euclidean remainder modulo 2^32 and subtracting 2^31; WrapInRange and WrapEquation state that the result is in range and differs from the input by a multiple of 2^32 |
| Int32Arith.Add | 3dStuff/Vectors/Vector3Int.cs:67 | unchecked `int` addition: the wrapped exact sum; AddWrap lets wrapping be postponed to the end of a sum |
| Int32Arith.Sub | 3dStuff/Vectors/Vector3Int.cs:68 | unchecked `int` subtraction: the wrapped exact difference; SubWrap lets wrapping be postponed |
| Int32Arith.Mul | 3dStuff/Vectors/Vector3Int.cs:70 | unchecked `int` multiplication: the wrapped exact product; MulWrap lets wrapping be postponed |
| Int32Arith.Neg | 3dStuff/Vectors/Vector3Int.cs:69 | unchecked `int` negation: the wrapped exact negation, so that `-MinValue` is `MinValue` (AddOverflows) |
| Int32Arith.AddOverflows | 3dStuff/Vectors/Vector3Int.cs:67-69 | int arithmetic wraps: `MaxValue + 1` is `MinValue`, `MinValue - 1` is `MaxValue`, and `-MinValue` is `MinValue` |
| Int32Arith.Truncate | 3dStuff/Vectors/Vector3Int.cs:92 | the `(int)` cast of an in-range double keeps its whole part, rounding toward zero: the result is within 1 of the input, on the zero side |
| Int32Arith.TruncateOfWhole | 3dStuff/Vectors/Vector3Int.cs:92-93 | casting a widened int back to int gives the int |
| Int32Arith.TruncateExamples | 3dStuff/Vectors/Vector3Int.cs:92 | `(int)1.9 == 1` and `(int)-1.9 == -1` |
| RealArith.Clamp | 3dStuff/Vectors/Vector3.cs:173 | `Math.Clamp` lies within the bounds; it is the value inside them and the nearer bound outside them |
| RealArith.Min | 3dStuff/Vectors/Vector3.cs:176-177 | `Math.Min` is a lower bound of both arguments and equals one of them |
| RealArith.Max | 3dStuff/Vectors/Vector3.cs:178-179 | `Math.Max` is an upper bound of both arguments and equals one of them |
| RealArith.Sign | 3dStuff/Vectors/Vector3.cs:207 | `Math.Sign` is -1, 0 or 1: 0 exactly for 0, 1 exactly for positive inputs |
| RealArith.Interpolate | 3dStuff/Vectors/Vector3.cs:174-175 | the scalar interpolation step `a + (b - a) * t` of `LerpUnclamped`; BetweenEnds bounds it |
| RealArith.BetweenEnds | 3dStuff/Vectors/Vector3.cs:174-175 | the scalar step `a + (b - a) * t` for `t` in [0, 1] lies between `min(a, b)` and `max(a, b)` |
| Vector3Ops.XY | 3dStuff/Vectors/Vector3.cs:18 | the `XY` swizzle; SwizzlesKeepOrder states its components |
| Vector3Ops.YX | 3dStuff/Vectors/Vector3.cs:19 | the `YX` swizzle; SwizzlesKeepOrder states its components |
| Vector3Ops.XZ | 3dStuff/Vectors/Vector3.cs:20 | the `XZ` swizzle; SwizzlesKeepOrder states its components |
| Vector3Ops.ZX | 3dStuff/Vectors/Vector3.cs:21 | the `ZX` swizzle; SwizzlesKeepOrder states its components |
| Vector3Ops.YZ | 3dStuff/Vectors/Vector3.cs:22 | the `YZ` swizzle; SwizzlesKeepOrder states its components |
| Vector3Ops.ZY | 3dStuff/Vectors/Vector3.cs:23 | the `ZY` swizzle; SwizzlesKeepOrder states its components |
| Vector3Ops.GetAxis | 3dStuff/Vectors/Vector3.cs:29-35 | reads the component named by the axis; the unknown-axis exception cannot arise because `Axis` has only three values |
| Vector3Ops.SwizzlesKeepOrder | 3dStuff/Vectors/Vector3.cs:18-23 | each swizzle is the pair of the two named `GetAxis` values in the named order; a swizzle plus the dropped component determines the vector |
| Vector3Ops.Add | 3dStuff/Vectors/Vector3.cs:94 | componentwise sum; SubAntisymmetric and DotAdd relate it to the other operators |
| Vector3Ops.Sub | 3dStuff/Vectors/Vector3.cs:95 | componentwise difference; SubAntisymmetric states `a - b == a + (-b)` |
| Vector3Ops.Neg | 3dStuff/Vectors/Vector3.cs:96 | componentwise negation; SubAntisymmetric relates it to subtraction |
| Vector3Ops.MulScalar | 3dStuff/Vectors/Vector3.cs:98 | multiplies every component by the double; DotScaled and SqrMagnitudeScaled state how it scales products |
| Vector3Ops.ScalarMul | 3dStuff/Vectors/Vector3.cs:97 | the `double * Vector3` operator, defined as `v * double` as in the source; DivThenMul covers both orders |
| Vector3Ops.Div | 3dStuff/Vectors/Vector3.cs:99 | divides every component by a non-zero double; DivThenMul states that multiplying back gives the vector |
| Vector3Ops.SubAntisymmetric | 3dStuff/Vectors/Vector3.cs:94-96 | `a - b == -(b - a)` and `a - b == a + (-b)` |
| Vector3Ops.DivThenMul | 3dStuff/Vectors/Vector3.cs:97-99 | dividing by a non-zero double and multiplying back, in either argument order, gives the vector back |
| Vector3Ops.ToTuple | 3dStuff/Vectors/Vector3.cs:102 | the implicit conversion to a value tuple; TupleRoundTrip states that it is inverse to FromTuple |
| Vector3Ops.FromTuple | 3dStuff/Vectors/Vector3.cs:101 | the implicit conversion from a value tuple; TupleRoundTrip states that it is inverse to ToTuple |
| Vector3Ops.TupleRoundTrip | 3dStuff/Vectors/Vector3.cs:101-102 | the value-tuple conversions are mutually inverse |
| Vector3Ops.Scale | 3dStuff/Vectors/Vector3.cs:37 | componentwise product; ScaleLaws states commutativity and identity |
| Vector3Ops.ScaleLaws | 3dStuff/Vectors/Vector3.cs:37 | `Scale` is commutative with `One` as identity |
| Vector3Ops.SqrMagnitude | 3dStuff/Vectors/Vector3.cs:38 | the sum of the squared components; SqrMagnitudeZero states non-negativity and the zero case |
| Vector3Ops.SqrMagnitudeZero | 3dStuff/Vectors/Vector3.cs:38 | `SqrMagnitude` is non-negative and zero exactly for `Zero` |
| Vector3Ops.Dot | 3dStuff/Vectors/Vector3.cs:194 | the sum of componentwise products; DotLaws, DotScaled, DotSub and DotAdd state symmetry and bilinearity |
| Vector3Ops.Cross | 3dStuff/Vectors/Vector3.cs:192-193 | the cross product; CrossAnticommutative, CrossOrthogonal, CrossBasis and Lagrange state its laws |
| Vector3Ops.DotLaws | 3dStuff/Vectors/Vector3.cs:194 | `Dot` is symmetric and `Dot(a, a)` is `a.SqrMagnitude()` |
| Vector3Ops.DotScaled | 3dStuff/Vectors/Vector3.cs:194 | `Dot(u * k, w) == k * Dot(u, w)` |
| Vector3Ops.DotSub | 3dStuff/Vectors/Vector3.cs:194 | `Dot(u - v, w) == Dot(u, w) - Dot(v, w)` |
| Vector3Ops.DotAdd | 3dStuff/Vectors/Vector3.cs:194 | `Dot(u + v, w) == Dot(u, w) + Dot(v, w)` |
| Vector3Ops.ScaledThenDivided | 3dStuff/Vectors/Vector3.cs:98-99 | `u * d / s == u * (d / s)` for non-zero `s` |
| Vector3Ops.CrossAnticommutative | 3dStuff/Vectors/Vector3.cs:192-193 | `Cross(a, b) == -Cross(b, a)` and `Cross(a, a) == Zero` |
| Vector3Ops.CrossOrthogonal | 3dStuff/Vectors/Vector3.cs:192-194 | `Cross(a, b)` is orthogonal to both `a` and `b` |
| Vector3Ops.CrossBasis | 3dStuff/Vectors/Vector3.cs:192-193 | `Cross(Right, Up) == Forward` |
| Vector3Ops.Lagrange | 3dStuff/Vectors/Vector3.cs:192-194 | `Dot(a, b)^2 + SqrMagnitude(Cross(a, b)) == SqrMagnitude(a) * SqrMagnitude(b)` |
| Vector3Ops.SubZero | 3dStuff/Vectors/Vector3.cs:95 | `b - a` is `Zero` exactly when `a == b` |
| Vector3Ops.SqrDistance | 3dStuff/Vectors/Vector3.cs:54 | the squared magnitude of `b - a`; SqrDistanceLaws states symmetry and that it is zero exactly for equal points |
| Vector3Ops.SqrDistanceLaws | 3dStuff/Vectors/Vector3.cs:54 | `SqrDistance` is symmetric and zero exactly between equal vectors |
| Vector3Ops.SqrMagnitudeScaled | 3dStuff/Vectors/Vector3.cs:38 | scaling by `m` multiplies `SqrMagnitude` by `m * m` |
| Vector3Ops.DivByRootIsUnit | 3dStuff/Vectors/Vector3.cs:50 | dividing a vector by the non-zero square root of its squared magnitude gives squared magnitude 1 |
| Vector3Ops.Normalized | 3dStuff/Vectors/Vector3.cs:46-53 | `Zero` when `SqrMagnitude()` is not positive; otherwise a unit vector that times the root gives back `v` |
| Vector3Ops.NormalizedZero | 3dStuff/Vectors/Vector3.cs:46-53 | `Normalized()` is `Zero` exactly for the zero vector |
| Vector3Ops.Reflect | 3dStuff/Vectors/Vector3.cs:56-60 | a zero normal leaves the vector unchanged |
| Vector3Ops.ReflectUnit | 3dStuff/Vectors/Vector3.cs:56-60 | for a unit normal, reflecting negates the normal component and is an involution |
| Vector3Ops.Project | 3dStuff/Vectors/Vector3.cs:61-68 | projecting onto a vector of squared magnitude 0 gives `Zero` |
| Vector3Ops.ProjectOrthogonal | 3dStuff/Vectors/Vector3.cs:61-68 | for a non-zero target the residual `v - Project(v)` is orthogonal to it, and projecting twice equals projecting once |
| Vector3Ops.ProjectOnPlane | 3dStuff/Vectors/Vector3.cs:69-76 | a normal of squared magnitude 0 returns `this`; otherwise the result times `sqrMag` is `(this - planeNormal) * Dot(this, planeNormal)` |
| Vector3Ops.ProjectOnPlaneIsNotOrthogonal | 3dStuff/Vectors/Vector3.cs:69-76 | for `v = (0, 0, 2)` and normal `Forward` the formula returns `v`, which is off the plane, while `v - Project(v, Forward)` is `Zero` |
| Vector3Ops.ClampMagnitude | 3dStuff/Vectors/Vector3.cs:77-84 | a vector with `SqrMagnitude() <= maxLength^2` is returned unchanged; a longer one becomes `Normalized() * maxLength`, of squared magnitude `maxLength^2` |
| Vector3Ops.LerpUnclamped | 3dStuff/Vectors/Vector3.cs:174-175 | `t = 0` gives `a` and `t = 1` gives `b` |
| Vector3Ops.Lerp | 3dStuff/Vectors/Vector3.cs:173 | `t <= 0` gives `a`, `t >= 1` gives `b`, and `t` in [0, 1] is passed to `LerpUnclamped` unchanged |
| Vector3Ops.LerpAxis | 3dStuff/Vectors/Vector3.cs:173-175 | each axis of `Lerp` is the scalar interpolation of that axis at `Math.Clamp(t, 0, 1)` |
| Vector3Ops.LerpAxisWithinBounds | 3dStuff/Vectors/Vector3.cs:173-179 | each axis of `Lerp(a, b, t)` lies between that axis of `Min(a, b)` and of `Max(a, b)` |
| Vector3Ops.LerpWithinBounds | 3dStuff/Vectors/Vector3.cs:173-179 | the same on every axis at once |
| Vector3Ops.Min | 3dStuff/Vectors/Vector3.cs:176-177 | per axis, a lower bound of both inputs that equals one of them |
| Vector3Ops.Max | 3dStuff/Vectors/Vector3.cs:178-179 | per axis, an upper bound of both inputs that equals one of them |
| Vector3Ops.MinMaxAxis | 3dStuff/Vectors/Vector3.cs:176-179 | each axis of `Min` / `Max` is `Math.Min` / `Math.Max` of that axis |
| Vector3Ops.MinMax | 3dStuff/Vectors/Vector3.cs:180-190 | the pair built with `<` per axis is exactly `(Min(a, b), Max(a, b))`, with min <= max per axis |
| Vector3Ops.AngleCosine | 3dStuff/Vectors/Vector3.cs:202 | the clamped cosine lies within [-1, 1] |
| Vector3Ops.AngleCosineUnclamped | 3dStuff/Vectors/Vector3.cs:198-202 | for a non-zero denominator the clamp does not change `Dot / denominator` (Cauchy-Schwarz) |
| Vector3Ops.SqrMagnitudeProductZero | 3dStuff/Vectors/Vector3.cs:198 | the product of the squared magnitudes is zero exactly when one vector is zero |
| Vector3Ops.AngleDenominatorZero | 3dStuff/Vectors/Vector3.cs:198-200 | the denominator of `Angle` is zero exactly when one vector is zero |
| Vector3Ops.Angle | 3dStuff/Vectors/Vector3.cs:196-204 | 0 when either vector is zero; otherwise the arc cosine in degrees of `Dot / denominator`; the denominator is non-zero exactly for two non-zero vectors |
| Vector3Ops.SignedAngle | 3dStuff/Vectors/Vector3.cs:206-207 | the result is `Angle` when `axis` points to the same side as `Cross(from, to)`, `-Angle` when it points to the other side, and 0 when it is orthogonal to it or either vector is zero |
| Vector3Ops.AngleSymmetric | 3dStuff/Vectors/Vector3.cs:196-204 | `Angle(to, from) == Angle(from, to)` |
| Vector3Ops.SignedAngleAntisymmetric | 3dStuff/Vectors/Vector3.cs:206-207 | swapping `from` and `to` negates `SignedAngle` |
| Vector3Ops.Vector3Var.constructor | 3dStuff/Vectors/Vector3.cs:26 | the new variable holds the given components |
| Vector3Ops.Vector3Var.Normalize | 3dStuff/Vectors/Vector3.cs:41-45 | the components are overwritten with `Normalized()` of the old value; a zero vector stays zero and any other becomes a unit vector |
| Vector2Ops.GetAxis | 3dStuff/Vectors/Vector2.cs:22-27 | reads the component named by the planar axis; `PlanarAxis` has no `Z`, so the unknown-axis exception cannot arise |
| Vector2Ops.YX | 3dStuff/Vectors/Vector2.cs:16 | the components swapped |
| Vector2Ops.YXInvolution | 3dStuff/Vectors/Vector2.cs:16 | `YX` twice is the identity |
| Vector2Ops.To3D | 3dStuff/Vectors/Vector2.cs:29-35 | `axisValue` lands in the named axis, and `X`, `Y` fill the other two in order |
| Vector2Ops.To3DSwizzle | 3dStuff/Vectors/Vector2.cs:29-35 | the swizzle that drops the added axis gives the vector back |
| Vector2Ops.ToVector3 | 3dStuff/Vectors/Vector2.cs:97 | the implicit widening keeps `X`, `Y` and sets `Z` to 0 |
| Vector2Ops.ToVector3IsTo3D | 3dStuff/Vectors/Vector2.cs:97 | the implicit widening is `To3D(Z)` with the default value, and it is injective |
| Vector2Ops.Add | 3dStuff/Vectors/Vector2.cs:90 | componentwise sum; OperatorsWiden states that it agrees with `Vector3` addition on the widened vectors |
| Vector2Ops.Sub | 3dStuff/Vectors/Vector2.cs:91 | componentwise difference; OperatorsWiden states the widening agreement |
| Vector2Ops.Neg | 3dStuff/Vectors/Vector2.cs:92 | componentwise negation; OperatorsWiden states the widening agreement |
| Vector2Ops.MulScalar | 3dStuff/Vectors/Vector2.cs:93 | multiplies every component by the double; OperatorsWiden states the widening agreement |
| Vector2Ops.ScalarMul | 3dStuff/Vectors/Vector2.cs:94 | the `double * Vector2` operator, defined as `v * double` as in the source; OperatorsWiden covers both orders |
| Vector2Ops.Div | 3dStuff/Vectors/Vector2.cs:95 | divides every component by a non-zero double; DivWidens and DivThenMul state its laws |
| Vector2Ops.OperatorsWiden | 3dStuff/Vectors/Vector2.cs:90-94 | `+`, binary and unary `-`, and `*` by a double, in both orders, commute with widening to `Vector3` |
| Vector2Ops.DivWidens | 3dStuff/Vectors/Vector2.cs:95 | `/` by a non-zero double commutes with widening |
| Vector2Ops.DivThenMul | 3dStuff/Vectors/Vector2.cs:93-95 | dividing by a non-zero double and multiplying back gives the vector back |
| Vector2Ops.ToTuple | 3dStuff/Vectors/Vector2.cs:100 | the implicit conversion to a value tuple; TupleRoundTrip states that it is inverse to FromTuple |
| Vector2Ops.FromTuple | 3dStuff/Vectors/Vector2.cs:99 | the implicit conversion from a value tuple; TupleRoundTrip states that it is inverse to ToTuple |
| Vector2Ops.TupleRoundTrip | 3dStuff/Vectors/Vector2.cs:99-100 | the value-tuple conversions are mutually inverse |
| Vector2Ops.Scale | 3dStuff/Vectors/Vector2.cs:37 | componentwise product; ScaleLaws states commutativity and identity |
| Vector2Ops.ScaleLaws | 3dStuff/Vectors/Vector2.cs:37 | `Scale` is commutative, has `One` as identity, and commutes with widening |
| Vector2Ops.Cross | 3dStuff/Vectors/Vector2.cs:163 | the result has `X == Y == 0` |
| Vector2Ops.Dot | 3dStuff/Vectors/Vector2.cs:164 | the sum of componentwise products; ProductsWiden and DotLaws relate it to `Vector3.Dot` and state symmetry |
| Vector2Ops.SqrMagnitude | 3dStuff/Vectors/Vector2.cs:38 | the sum of the squared components; SqrMagnitudeZero and ProductsWiden state its laws |
| Vector2Ops.SqrDistance | 3dStuff/Vectors/Vector2.cs:50 | the squared magnitude of `b - a`; SqrDistanceLaws states symmetry and that it is zero exactly for equal points |
| Vector2Ops.ProductsWiden | 3dStuff/Vectors/Vector2.cs:163-164 | `Dot`, `SqrMagnitude` and `Cross` are the `Vector3` ones of the widened vectors |
| Vector2Ops.DotLaws | 3dStuff/Vectors/Vector2.cs:164 | `Dot` is symmetric and `Dot(a, a)` is `a.SqrMagnitude()` |
| Vector2Ops.CrossAntisymmetric | 3dStuff/Vectors/Vector2.cs:163 | `Cross(a, b).Z == -Cross(b, a).Z` and `Cross(a, a)` is the `Vector3` zero |
| Vector2Ops.CrossBasis | 3dStuff/Vectors/Vector2.cs:163 | `Cross(Right, Up)` is `Vector3.Forward` |
| Vector2Ops.SqrMagnitudeZero | 3dStuff/Vectors/Vector2.cs:38 | `SqrMagnitude` is non-negative and zero exactly for `Zero` |
| Vector2Ops.SubZero | 3dStuff/Vectors/Vector2.cs:91 | `b - a` is `Zero` exactly when `a == b` |
| Vector2Ops.SqrDistanceLaws | 3dStuff/Vectors/Vector2.cs:50 | `SqrDistance` is symmetric and zero exactly between equal vectors |
| Vector2Ops.Normalized | 3dStuff/Vectors/Vector2.cs:42-49 | `Zero` when `SqrMagnitude()` is not positive; otherwise a unit vector that times the root gives back `v` |
| Vector2Ops.NormalizedWidens | 3dStuff/Vectors/Vector2.cs:46 | dividing by the non-zero root gives squared magnitude 1 |
| Vector2Ops.NormalizedZero | 3dStuff/Vectors/Vector2.cs:42-49 | `Normalized()` is `Zero` exactly for the zero vector |
| Vector2Ops.Reflect | 3dStuff/Vectors/Vector2.cs:52-56 | a zero normal leaves the vector unchanged, and widening commutes with `Reflect` |
| Vector2Ops.ReflectUnit | 3dStuff/Vectors/Vector2.cs:52-56 | for a unit normal, reflecting negates the normal component and is an involution |
| Vector2Ops.Project | 3dStuff/Vectors/Vector2.cs:57-64 | projecting onto a vector of squared magnitude 0 gives `Zero` |
| Vector2Ops.ProjectWidens | 3dStuff/Vectors/Vector2.cs:57-64 | widening commutes with `Project` |
| Vector2Ops.ProjectOrthogonal | 3dStuff/Vectors/Vector2.cs:57-64 | for a non-zero target the residual is orthogonal to it, and projecting twice equals projecting once |
| Vector2Ops.ProjectOnPlane | 3dStuff/Vectors/Vector2.cs:65-72 | a normal of squared magnitude 0 returns `this`; otherwise the result times `sqrMag` is `(this - planeNormal) * Dot(this, planeNormal)` |
| Vector2Ops.ProjectOnPlaneIsNotOrthogonal | 3dStuff/Vectors/Vector2.cs:65-72 | for `v = (0, 2)` and normal `Up` the formula returns `v`, which is off the line, while `v - Project(v, Up)` is `Zero` |
| Vector2Ops.ClampMagnitude | 3dStuff/Vectors/Vector2.cs:73-80 | a vector with `SqrMagnitude() <= maxLength^2` is returned unchanged; a longer one becomes `Normalized() * maxLength`, of squared magnitude `maxLength^2` |
| Vector2Ops.SqrMagnitudeScaled | 3dStuff/Vectors/Vector2.cs:38 | scaling by `m` multiplies `SqrMagnitude` by `m * m` |
| Vector2Ops.LerpUnclamped | 3dStuff/Vectors/Vector2.cs:149 | `t = 0` gives `a` and `t = 1` gives `b` |
| Vector2Ops.Lerp | 3dStuff/Vectors/Vector2.cs:148 | `t <= 0` gives `a`, `t >= 1` gives `b`, and `t` in [0, 1] is passed to `LerpUnclamped` unchanged |
| Vector2Ops.Min | 3dStuff/Vectors/Vector2.cs:150 | per axis, a lower bound of both inputs that equals one of them |
| Vector2Ops.Max | 3dStuff/Vectors/Vector2.cs:151 | per axis, an upper bound of both inputs that equals one of them |
| Vector2Ops.MinMax | 3dStuff/Vectors/Vector2.cs:152-161 | the pair built with `<` per axis is exactly `(Min(a, b), Max(a, b))`, with min <= max per axis |
| Vector2Ops.LerpAxisWithinBounds | 3dStuff/Vectors/Vector2.cs:148-151 | each axis of `Lerp(a, b, t)` lies between that axis of `Min(a, b)` and of `Max(a, b)` |
| Vector2Ops.LerpWithinBounds | 3dStuff/Vectors/Vector2.cs:148-151 | the same on both axes at once |
| Vector2Ops.Angle | 3dStuff/Vectors/Vector2.cs:166 | 0 when either vector is zero; otherwise the arc cosine in degrees of `Dot / denominator`; the denominator is non-zero exactly for two non-zero vectors |
| Vector2Ops.SignedAngle | 3dStuff/Vectors/Vector2.cs:168 | as written, the result is always 0 (see Findings) |
| Vector2Ops.SignedAngleLosesDirection | 3dStuff/Vectors/Vector2.cs:168 | for two non-parallel vectors at a non-zero angle, the as-written `SignedAngle` is 0 while the angle signed about the plane's normal is not |
| Vector2Ops.SignedAngleAboutNormal | 3dStuff/Vectors/Vector2.cs:168 | corrected: `Angle` for a counter-clockwise turn (`Cross(from, to).Z > 0`), `-Angle` for a clockwise one, 0 for parallel vectors |
| Vector2Ops.SignedAngleAboutNormalWidens | 3dStuff/Vectors/Vector2.cs:168 | the corrected angle is `Vector3.SignedAngle` of the widened vectors about `Vector3.Forward` |
| Vector2Ops.SignedAngleAboutNormalAntisymmetric | 3dStuff/Vectors/Vector2.cs:168 | swapping `from` and `to` negates the corrected signed angle |
| Vector2Ops.Vector2Var.constructor | 3dStuff/Vectors/Vector2.cs:19 | the new variable holds the given components |
| Vector2Ops.Vector2Var.Normalize | 3dStuff/Vectors/Vector2.cs:41 | the receiver becomes `Normalized()` of its old value and that value is returned; a zero vector stays zero and any other becomes a unit vector |
| Vector3IntOps.GetAxis | 3dStuff/Vectors/Vector3Int.cs:29-35 | reads the `int` component named by the axis; the unknown-axis exception cannot arise |
| Vector3IntOps.XY | 3dStuff/Vectors/Vector3Int.cs:18 | the `XY` swizzle; SwizzlesKeepOrder states its components |
| Vector3IntOps.YX | 3dStuff/Vectors/Vector3Int.cs:19 | the `YX` swizzle; SwizzlesKeepOrder states its components |
| Vector3IntOps.XZ | 3dStuff/Vectors/Vector3Int.cs:20 | the `XZ` swizzle; SwizzlesKeepOrder states its components |
| Vector3IntOps.ZX | 3dStuff/Vectors/Vector3Int.cs:21 | the `ZX` swizzle; SwizzlesKeepOrder states its components |
| Vector3IntOps.YZ | 3dStuff/Vectors/Vector3Int.cs:22 | the `YZ` swizzle; SwizzlesKeepOrder states its components |
| Vector3IntOps.ZY | 3dStuff/Vectors/Vector3Int.cs:23 | the `ZY` swizzle; SwizzlesKeepOrder states its components |
| Vector3IntOps.SwizzlesKeepOrder | 3dStuff/Vectors/Vector3Int.cs:18-23 | each swizzle is the pair of the two named `GetAxis` values in the named order; a swizzle plus the dropped component determines the vector |
| Vector3IntOps.Add | 3dStuff/Vectors/Vector3Int.cs:67 | componentwise wrapped sum; OperatorsExact states it is the exact sum reduced modulo 2^32 |
| Vector3IntOps.Sub | 3dStuff/Vectors/Vector3Int.cs:68 | componentwise wrapped difference; OperatorsExact and SubAntisymmetric state its laws |
| Vector3IntOps.Neg | 3dStuff/Vectors/Vector3Int.cs:69 | componentwise wrapped negation; OperatorsExact states it |
| Vector3IntOps.MulScalar | 3dStuff/Vectors/Vector3Int.cs:70 | multiplies every component by the `int` with wrapping; OperatorsExact states it |
| Vector3IntOps.ScalarMul | 3dStuff/Vectors/Vector3Int.cs:71 | the `int * Vector3Int` operator, defined as `v * int` as in the source |
| Vector3IntOps.OperatorsExact | 3dStuff/Vectors/Vector3Int.cs:67-71 | per axis, `+`, `-`, unary `-` and `* int` give the wrap-around of the exact result; `int * v` equals `v * int` |
| Vector3IntOps.SubAntisymmetric | 3dStuff/Vectors/Vector3Int.cs:67-69 | `a - b == -(b - a)` and `a + b == b + a`, across overflow |
| Vector3IntOps.ToVector3 | 3dStuff/Vectors/Vector3Int.cs:93 | the implicit widening keeps every component's value |
| Vector3IntOps.FromVector3 | 3dStuff/Vectors/Vector3Int.cs:92 | the explicit cast truncates each component toward zero |
| Vector3IntOps.ConversionRoundTrip | 3dStuff/Vectors/Vector3Int.cs:92-93 | `(Vector3Int)(Vector3)v == v`, so widening is injective |
| Vector3IntOps.FromVector3Truncates | 3dStuff/Vectors/Vector3Int.cs:92 | `(1.9, -1.9, 0.5)` casts to `(1, -1, 0)` |
| Vector3IntOps.MulReal | 3dStuff/Vectors/Vector3Int.cs:73 | multiplies the widened components by the double; RealOperatorsWiden states that it is `Vector3` scaling of the widened vector |
| Vector3IntOps.RealMul | 3dStuff/Vectors/Vector3Int.cs:74 | the `double * Vector3Int` operator, defined as `v * double` as in the source |
| Vector3IntOps.DivReal | 3dStuff/Vectors/Vector3Int.cs:75 | divides the widened components by a non-zero double; RealOperatorsWiden states it |
| Vector3IntOps.RealOperatorsWiden | 3dStuff/Vectors/Vector3Int.cs:73-75 | `*` and `/` by a double are the `Vector3` operators on the widened vector |
| Vector3IntOps.AddMixed | 3dStuff/Vectors/Vector3Int.cs:88 | `(Vector3)a + b`; MixedOperatorsAgree states that both argument orders agree and that it matches the int sum when no component overflows |
| Vector3IntOps.MixedAdd | 3dStuff/Vectors/Vector3Int.cs:89 | `a + (Vector3)b`; MixedOperatorsAgree states that both argument orders agree |
| Vector3IntOps.SubMixed | 3dStuff/Vectors/Vector3Int.cs:90 | `(Vector3)a - b`; MixedOperatorsAgree relates it to MixedSub |
| Vector3IntOps.MixedSub | 3dStuff/Vectors/Vector3Int.cs:91 | `a - (Vector3)b`; MixedOperatorsAgree relates it to SubMixed |
| Vector3IntOps.EqualsMixed | 3dStuff/Vectors/Vector3Int.cs:84-87 | mixed equality compares the widened vector; EqualsMixedCastsBack states that equality implies the cast back gives the int vector |
| Vector3IntOps.MixedOperatorsAgree | 3dStuff/Vectors/Vector3Int.cs:88-91 | mixed `+` and `-` agree with the int operators when nothing overflows; the two argument orders agree (`-` up to sign) |
| Vector3IntOps.EqualsMixedCastsBack | 3dStuff/Vectors/Vector3Int.cs:84 | when a `Vector3Int` `==` a `Vector3`, the `Vector3` is in range and casts back to the int vector |
| Vector3IntOps.ToTuple | 3dStuff/Vectors/Vector3Int.cs:78 | the implicit conversion to a value tuple; TupleRoundTrip states that it is inverse to FromTuple |
| Vector3IntOps.FromTuple | 3dStuff/Vectors/Vector3Int.cs:77 | the implicit conversion from a value tuple; TupleRoundTrip states that it is inverse to ToTuple |
| Vector3IntOps.TupleRoundTrip | 3dStuff/Vectors/Vector3Int.cs:77-78 | the value-tuple conversions are mutually inverse |
| Vector3IntOps.Scale | 3dStuff/Vectors/Vector3Int.cs:37 | delegates to `Vector3.Scale` of the widened vector |
| Vector3IntOps.ScaleInt | 3dStuff/Vectors/Vector3Int.cs:38 | componentwise wrapped product; ScaleIntLaws states commutativity and identity |
| Vector3IntOps.ScaleIntLaws | 3dStuff/Vectors/Vector3Int.cs:38 | `ScaleInt` is the wrapped componentwise product, commutative, with `One` as identity |
| Vector3IntOps.SumOfProductsWraps | 3dStuff/Vectors/Vector3Int.cs:161 | a wrapped sum of wrapped products is the wrap of the exact sum of products |
| Vector3IntOps.Dot | 3dStuff/Vectors/Vector3Int.cs:161 | the wrapped sum of wrapped componentwise products; DotExact states it is the exact dot product modulo 2^32 |
| Vector3IntOps.Cross | 3dStuff/Vectors/Vector3Int.cs:159-160 | the wrapped cross product; CrossExact, CrossAnticommutative, CrossOrthogonal and CrossBasis state its laws |
| Vector3IntOps.DotExact | 3dStuff/Vectors/Vector3Int.cs:161 | `Dot` is the wrap-around of the exact dot product |
| Vector3IntOps.DotLaws | 3dStuff/Vectors/Vector3Int.cs:161 | `Dot` is symmetric and `Dot(a, a) == a.SqrMagnitudeInt()`, across overflow |
| Vector3IntOps.CrossExact | 3dStuff/Vectors/Vector3Int.cs:159-160 | each component of `Cross` is the wrap-around of the exact determinant |
| Vector3IntOps.CrossAnticommutative | 3dStuff/Vectors/Vector3Int.cs:159-160 | `Cross(a, b) == -Cross(b, a)` and `Cross(a, a) == Zero`, across overflow |
| Vector3IntOps.CrossOrthogonal | 3dStuff/Vectors/Vector3Int.cs:159-161 | `Dot(a, Cross(a, b)) == 0`, across overflow |
| Vector3IntOps.CrossBasis | 3dStuff/Vectors/Vector3Int.cs:159-160 | `Cross(Right, Up) == Forward` |
| Vector3IntOps.SqrMagnitudeInt | 3dStuff/Vectors/Vector3Int.cs:39 | the wrapped sum of wrapped squares; SqrMagnitudeIntExact and SqrMagnitudeIntOverflows state its value and its overflow |
| Vector3IntOps.SqrMagnitude | 3dStuff/Vectors/Vector3Int.cs:40 | the sum of the squared components taken as doubles; SqrMagnitudeExact and SqrMagnitudeAgrees state it |
| Vector3IntOps.SqrDistanceInt | 3dStuff/Vectors/Vector3Int.cs:51 | `SqrMagnitudeInt` of the wrapped `b - a`; SqrDistanceIntExact and SqrDistanceIntLaws state it |
| Vector3IntOps.SqrDistance | 3dStuff/Vectors/Vector3Int.cs:52 | `Vector3.SqrMagnitude` of the mixed subtraction `b - a` |
| Vector3IntOps.SqrDistanceIntExact | 3dStuff/Vectors/Vector3Int.cs:51 | `SqrDistanceInt` is the wrap-around of the exact squared distance |
| Vector3IntOps.SqrDistanceIntLaws | 3dStuff/Vectors/Vector3Int.cs:51 | `SqrDistanceInt` is symmetric and zero from a vector to itself, across overflow |
| Vector3IntOps.SqrMagnitudeIntExact | 3dStuff/Vectors/Vector3Int.cs:39 | `SqrMagnitudeInt` is the wrap-around of the exact sum of squares |
| Vector3IntOps.SqrMagnitudeExact | 3dStuff/Vectors/Vector3Int.cs:40 | the double `SqrMagnitude` is the exact sum of squares, with no wrap-around |
| Vector3IntOps.SqrMagnitudeAgrees | 3dStuff/Vectors/Vector3Int.cs:39-40 | the two squared magnitudes agree while the exact sum fits in an int |
| Vector3IntOps.SqrMagnitudeIntOverflows | 3dStuff/Vectors/Vector3Int.cs:39-40 | for `(46341, 0, 0)`, `SqrMagnitudeInt` wraps to -2147479015 while `SqrMagnitude` is 2147488281 |
| Vector3IntOps.MinInt | 3dStuff/Vectors/Vector3Int.cs:143-144 | `Math.Min` on `int`, used componentwise by Min |
| Vector3IntOps.MaxInt | 3dStuff/Vectors/Vector3Int.cs:145-146 | `Math.Max` on `int`, used componentwise by Max |
| Vector3IntOps.Min | 3dStuff/Vectors/Vector3Int.cs:143-144 | per axis, a lower bound of both inputs that equals one of them |
| Vector3IntOps.Max | 3dStuff/Vectors/Vector3Int.cs:145-146 | per axis, an upper bound of both inputs that equals one of them |
| Vector3IntOps.MinMax | 3dStuff/Vectors/Vector3Int.cs:147-157 | the pair built with `<` per axis is exactly `(Min(a, b), Max(a, b))`, with min <= max per axis |
| Vector3IntOps.Normalized | 3dStuff/Vectors/Vector3Int.cs:43-50 | the zero vector gives the `Vector3` zero; in general the result is `Vector3.Normalized` of the widened vector |
| Vector3IntOps.NormalizedUnit | 3dStuff/Vectors/Vector3Int.cs:43-50 | a non-zero vector normalizes to a unit `Vector3` that times the root is the widened vector |
| Vector3IntOps.NormalizedZeroIff | 3dStuff/Vectors/Vector3Int.cs:45-46 | `SqrMagnitude() > 0` exactly for a non-zero vector |
| Vector3IntOps.Reflect | 3dStuff/Vectors/Vector3Int.cs:54 | a zero normal gives the widened vector |
| Vector3IntOps.Project | 3dStuff/Vectors/Vector3Int.cs:55 | projecting onto a vector of squared magnitude 0 gives the `Vector3` zero |
| Vector3IntOps.ProjectOnPlane | 3dStuff/Vectors/Vector3Int.cs:56 | a normal of squared magnitude 0 gives the widened vector |
| Vector3IntOps.ClampMagnitude | 3dStuff/Vectors/Vector3Int.cs:57 | a short vector gives the widened vector; a longer one gives `Normalized() * maxLength`, of squared magnitude `maxLength^2` |
| Vector2IntOps.ToVector2 | 3dStuff/Vectors/Vector2Int.cs:95 | the implicit widening keeps both component values |
| Vector2IntOps.FromVector2 | 3dStuff/Vectors/Vector2Int.cs:94 | the explicit cast truncates each component toward zero |
| Vector2IntOps.ConversionRoundTrip | 3dStuff/Vectors/Vector2Int.cs:94-95 | `(Vector2Int)(Vector2)v == v`, so widening is injective |
| Vector2IntOps.FromVector2Truncates | 3dStuff/Vectors/Vector2Int.cs:94 | `(1.9, -1.9)` casts to `(1, -1)` |
| Vector2IntOps.ToVector3Int | 3dStuff/Vectors/Vector2Int.cs:77 | the implicit promotion keeps `X`, `Y` and sets `Z` to 0 |
| Vector2IntOps.To3D | 3dStuff/Vectors/Vector2Int.cs:29-35 | `axisValue` lands in the named axis, and `X`, `Y` fill the other two in order |
| Vector2IntOps.To3DSwizzle | 3dStuff/Vectors/Vector2Int.cs:29-35 | `To3D(Z).XY`, `To3D(Y).XZ` and `To3D(X).YZ` give the vector back; the implicit promotion is `To3D(Z, 0)` |
| Vector2IntOps.WideningsCommute | 3dStuff/Vectors/Vector2Int.cs:77 | promoting to `Vector3Int` and then widening equals widening to `Vector2` and then to `Vector3` |
| Vector2IntOps.GetAxis | 3dStuff/Vectors/Vector2Int.cs:22-27 | returns a double: `Vector2.GetAxis` of the widened vector |
| Vector2IntOps.YX | 3dStuff/Vectors/Vector2Int.cs:16 | returns a `Vector2`: the swapped widened vector, which `YX` swaps back |
| Vector2IntOps.Add | 3dStuff/Vectors/Vector2Int.cs:67 | componentwise wrapped sum; OperatorsPromote states that it is `Vector3Int` addition of the promoted vectors |
| Vector2IntOps.Sub | 3dStuff/Vectors/Vector2Int.cs:68 | componentwise wrapped difference; OperatorsPromote and SubAntisymmetric state its laws |
| Vector2IntOps.Neg | 3dStuff/Vectors/Vector2Int.cs:69 | componentwise wrapped negation; OperatorsPromote states the promotion agreement |
| Vector2IntOps.MulScalar | 3dStuff/Vectors/Vector2Int.cs:70 | multiplies every component by the `int` with wrapping; OperatorsPromote states the promotion agreement |
| Vector2IntOps.ScalarMul | 3dStuff/Vectors/Vector2Int.cs:71 | the `int * Vector2Int` operator, defined as `v * int` as in the source |
| Vector2IntOps.OperatorsPromote | 3dStuff/Vectors/Vector2Int.cs:67-71 | the wrapping int operators are the `Vector3Int` ones on the promoted vectors; `int * v` equals `v * int` |
| Vector2IntOps.SubAntisymmetric | 3dStuff/Vectors/Vector2Int.cs:67-69 | `a - b == -(b - a)` and `a + b == b + a`, across overflow |
| Vector2IntOps.MulReal | 3dStuff/Vectors/Vector2Int.cs:73 | `(Vector2)a * b`; RealOperatorsLaws states its laws |
| Vector2IntOps.RealMul | 3dStuff/Vectors/Vector2Int.cs:74 | `a * (Vector2)b`; RealOperatorsLaws relates it to MulReal |
| Vector2IntOps.DivReal | 3dStuff/Vectors/Vector2Int.cs:75 | `(Vector2)a / b` for a non-zero double; RealOperatorsLaws states its laws |
| Vector2IntOps.RealOperatorsLaws | 3dStuff/Vectors/Vector2Int.cs:73-75 | both orders of `*` by a double agree, and `/` by a non-zero double is undone by `*` |
| Vector2IntOps.AddMixed | 3dStuff/Vectors/Vector2Int.cs:90 | `(Vector2)a + b`; MixedOperatorsAgree states that both argument orders agree and that it matches the int sum when no component overflows |
| Vector2IntOps.MixedAdd | 3dStuff/Vectors/Vector2Int.cs:91 | `a + (Vector2)b`; MixedOperatorsAgree states that both argument orders agree |
| Vector2IntOps.SubMixed | 3dStuff/Vectors/Vector2Int.cs:92 | `(Vector2)a - b`; MixedOperatorsAgree relates it to MixedSub |
| Vector2IntOps.MixedSub | 3dStuff/Vectors/Vector2Int.cs:93 | `a - (Vector2)b`; MixedOperatorsAgree relates it to SubMixed |
| Vector2IntOps.EqualsMixed | 3dStuff/Vectors/Vector2Int.cs:86-89 | mixed equality compares the widened vector; EqualsMixedCastsBack states that equality implies the cast back gives the int vector |
| Vector2IntOps.MixedOperatorsAgree | 3dStuff/Vectors/Vector2Int.cs:90-93 | mixed `+` and `-` agree with the int operators when nothing overflows; the two argument orders agree (`-` up to sign) |
| Vector2IntOps.EqualsMixedCastsBack | 3dStuff/Vectors/Vector2Int.cs:86 | when a `Vector2Int` `==` a `Vector2`, the `Vector2` is in range and casts back to the int vector |
| Vector2IntOps.ToTuple | 3dStuff/Vectors/Vector2Int.cs:80 | the implicit conversion to a value tuple; TupleRoundTrip states that it is inverse to FromTuple |
| Vector2IntOps.FromTuple | 3dStuff/Vectors/Vector2Int.cs:79 | the implicit conversion from a value tuple; TupleRoundTrip states that it is inverse to ToTuple |
| Vector2IntOps.TupleRoundTrip | 3dStuff/Vectors/Vector2Int.cs:79-80 | the value-tuple conversions are mutually inverse |
| Vector2IntOps.Scale | 3dStuff/Vectors/Vector2Int.cs:37 | delegates to `Vector2.Scale` of the widened vector |
| Vector2IntOps.ScaleInt | 3dStuff/Vectors/Vector2Int.cs:38 | componentwise wrapped product; ScaleIntLaws states its laws |
| Vector2IntOps.ScaleIntLaws | 3dStuff/Vectors/Vector2Int.cs:38 | `ScaleInt` is commutative, has `One` as identity, and is `Vector3Int.ScaleInt` on the promoted vectors |
| Vector2IntOps.Cross | 3dStuff/Vectors/Vector2Int.cs:154 | the result has `X == Y == 0` |
| Vector2IntOps.Dot | 3dStuff/Vectors/Vector2Int.cs:155 | the wrapped sum of wrapped componentwise products; DotPromotes and DotLaws state its laws |
| Vector2IntOps.SqrMagnitudeInt | 3dStuff/Vectors/Vector2Int.cs:39 | the wrapped sum of wrapped squares; SqrMagnitudeIntPromotes relates it to `Vector3Int` |
| Vector2IntOps.SqrMagnitude | 3dStuff/Vectors/Vector2Int.cs:40 | the sum of the squared components taken as doubles, i.e. `Vector2.SqrMagnitude` of the widened vector |
| Vector2IntOps.SqrDistanceInt | 3dStuff/Vectors/Vector2Int.cs:51 | `SqrMagnitudeInt` of the wrapped `b - a`; SqrDistanceIntPromotes and SqrDistanceIntLaws state its laws |
| Vector2IntOps.SqrDistance | 3dStuff/Vectors/Vector2Int.cs:52 | `Vector2.SqrMagnitude` of the mixed subtraction `b - a` |
| Vector2IntOps.DotPromotes | 3dStuff/Vectors/Vector2Int.cs:155 | `Dot` is `Vector3Int.Dot` of the promoted vectors |
| Vector2IntOps.SqrMagnitudeIntPromotes | 3dStuff/Vectors/Vector2Int.cs:39 | `SqrMagnitudeInt` is `Vector3Int.SqrMagnitudeInt` of the promoted vector |
| Vector2IntOps.SqrDistanceIntPromotes | 3dStuff/Vectors/Vector2Int.cs:51 | `SqrDistanceInt` is `Vector3Int.SqrDistanceInt` of the promoted vectors |
| Vector2IntOps.CrossPromotes | 3dStuff/Vectors/Vector2Int.cs:154 | `Cross` is `Vector3Int.Cross` of the promoted vectors |
| Vector2IntOps.DotLaws | 3dStuff/Vectors/Vector2Int.cs:155 | `Dot` is symmetric and `Dot(a, a) == a.SqrMagnitudeInt()`, across overflow |
| Vector2IntOps.CrossAntisymmetric | 3dStuff/Vectors/Vector2Int.cs:154 | `Cross(a, b).Z == -Cross(b, a).Z` (wrapped) and `Cross(a, a)` is the `Vector3Int` zero |
| Vector2IntOps.SqrDistanceIntLaws | 3dStuff/Vectors/Vector2Int.cs:51 | `SqrDistanceInt` is symmetric and zero from a vector to itself, across overflow |
| Vector2IntOps.Min | 3dStuff/Vectors/Vector2Int.cs:141 | promoted, it is `Vector3Int.Min` of the promoted vectors |
| Vector2IntOps.Max | 3dStuff/Vectors/Vector2Int.cs:142 | promoted, it is `Vector3Int.Max` of the promoted vectors |
| Vector2IntOps.MinMaxBounds | 3dStuff/Vectors/Vector2Int.cs:141-142 | per axis, `Min` is a lower and `Max` an upper bound of both inputs, each equal to one of them |
| Vector2IntOps.MinMax | 3dStuff/Vectors/Vector2Int.cs:143-152 | the pair built with `<` per axis is exactly `(Min(a, b), Max(a, b))`, with min <= max per axis |
| Vector2IntOps.Normalized | 3dStuff/Vectors/Vector2Int.cs:43-50 | the zero vector gives the `Vector2` zero; in general the result is `Vector2.Normalized` of the widened vector |
| Vector2IntOps.NormalizedZeroIff | 3dStuff/Vectors/Vector2Int.cs:45-46 | `SqrMagnitude() > 0` exactly for a non-zero vector |
| Vector2IntOps.NormalizedUnit | 3dStuff/Vectors/Vector2Int.cs:43-50 | a non-zero vector normalizes to a unit `Vector2` that times the root is the widened vector |
| Vector2IntOps.Reflect | 3dStuff/Vectors/Vector2Int.cs:54 | a zero normal gives the widened vector |
| Vector2IntOps.Project | 3dStuff/Vectors/Vector2Int.cs:55 | projecting onto a vector of squared magnitude 0 gives the `Vector2` zero |
| Vector2IntOps.ProjectOnPlane | 3dStuff/Vectors/Vector2Int.cs:56 | a normal of squared magnitude 0 gives the widened vector |
| Vector2IntOps.ClampMagnitude | 3dStuff/Vectors/Vector2Int.cs:57 | a short vector gives the widened vector; a longer one gives `Normalized() * maxLength`, of squared magnitude `maxLength^2` |

## Left out

- `Magnitude()` and `Distance()` are left out. They are `Math.Sqrt` of modelled quantities, and the square root is a foreign call.
- `Math.Sqrt` and `Math.Acos` inside the operations become parameters:
  - a `root` constrained by `IsRoot`;
  - `arccosDegrees`, about which nothing is assumed.
- Floating point is left out: rounding, underflow, overflow to infinity, NaN, and `PositiveInfinity` / `NegativeInfinity`. With exact reals, `Min`/`Max` and `MinMax` cannot differ on NaN. The clamp in `Angle` is provably a no-op with exact reals (`AngleCosineUnclamped`); with doubles it guards against rounding.
- Vector3Ops.Div, Vector2Ops.Div, Vector3IntOps.DivReal and Vector2IntOps.DivReal require a non-zero divisor. In C#, dividing by zero gives infinities or NaN, which have no `real` counterpart. Every guarded call site in the source (`Normalized`, `Project`, `ProjectOnPlane`, `ClampMagnitude`, `Angle`) divides only by a non-zero value.
- Vector3Ops.ClampMagnitude, Vector2Ops.ClampMagnitude, Vector3IntOps.ClampMagnitude, Vector2IntOps.ClampMagnitude: `maxLength` is a `float` in the source. It is taken as an exact real, so the `float` product `maxLength * maxLength` is not modelled.
- Vector3IntOps.SqrMagnitude, Vector2IntOps.SqrMagnitude: the source computes `1.0 * X * X + …` in doubles. The model takes the exact real sum, so the rounding of any product or sum above 2^53 is not captured; the products already round once a component exceeds about 9.49e7 in magnitude.
- Vector3IntOps.FromVector3, Vector2IntOps.FromVector2, Int32Arith.Truncate: casts of doubles outside the `int` range are excluded by a precondition. In unchecked C# their result is unspecified.
- `ToString` is left out, because it depends on .NET culture and number formatting. `Vector3Int.ToString` prints `X` where the third component `Z` belongs (3dStuff/Vectors/Vector3Int.cs:172).
- `GetHashCode` is left out: `HashCode.Combine` is seeded per process.
- `Equals`, `==` and `!=` between two vectors of the same type are datatype equality.
- The `Tuple<>` reference-type conversions are left out. They are field copies like the value-tuple conversions, which are modelled.
- The commented-out `System.Windows` / `Media3D` / `Quaternion` conversion blocks are left out; they are not compiled.
- The `_ => throw` arms of the axis switches cannot be reached: `Axis` and `PlanarAxis` are closed, so those arms do not appear.
- The static `Zero`, `One`, `Right`, … properties are the module constants of the same names. Each property returns a copy of a private static field, which the model does not distinguish from the value.
- `ProjectOnPlane` is modelled with the formula the source uses, `(this - n) * Dot(this, n) / n.SqrMagnitude()`. `ProjectOnPlaneIsNotOrthogonal` shows that this is not the orthogonal projection onto the plane. Which projection was meant cannot be read off the code, so no corrected version is given.

## Findings

| source | as written | input that shows it | evidently intended | confidence | as-written member | corrected member |
|---|---|---|---|---|---|---|
| 3dStuff/Vectors/Vector2.cs:168 | `SignedAngle(from, to, axis)` widens all three vectors to `Vector3` and calls `Vector3.SignedAngle`. The widened `axis` has `Z == 0`, while `Cross(from, to)` has only a `Z` component, so their dot product and the sign factor are always 0 | `from = Right`, `to = Up`, any `axis`: the result is 0 instead of 90 | the angle signed by the turn direction in the plane, i.e. measured about the plane's normal `Vector3.Forward` | not executed; certain that the result is always 0, less certain about the intended sign convention | Vector2Ops.SignedAngle, Vector2Ops.SignedAngleLosesDirection | Vector2Ops.SignedAngleAboutNormal |
