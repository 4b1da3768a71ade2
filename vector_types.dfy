/** The data of the four vector structs. Each is a value type copied on every use,
    so each is a datatype; the operations live in one module per struct. */
module VectorTypes {
  import opened Int32Arith

  /** The axis tag of `Vector3.Axis`. `Vector2.Axis`, `Vector2Int.Axis` and
      `Vector3Int.Axis` are declared with the same underlying values, so one
      datatype serves all four structs. */
  datatype Axis = X | Y | Z

  /** The tags of the two-dimensional enums, which only alias `X` and `Y`. */
  type PlanarAxis = a: Axis | !a.Z? witness Axis.X

  /** The two axes other than `a`, in declaration order: the slots that
      `To3D(a, ...)` fills with the 2D vector's `X` and `Y`. */
  function OtherAxes(a: Axis): (r: (Axis, Axis))
    ensures r.0 != a && r.1 != a && r.0 != r.1
    ensures r.0 != Axis.Z && r.1 != Axis.X
  {
    match a
    case X => (Axis.Y, Axis.Z)
    case Y => (Axis.X, Axis.Z)
    case Z => (Axis.X, Axis.Y)
  }

  /** Double components, modelled as exact reals. */
  datatype Vector2 = Vector2(X: real, Y: real)
  datatype Vector3 = Vector3(X: real, Y: real, Z: real)

  /** 32-bit int components. */
  datatype Vector2Int = Vector2Int(X: Int32, Y: Int32)
  datatype Vector3Int = Vector3Int(X: Int32, Y: Int32, Z: Int32)
}
