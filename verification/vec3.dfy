/** Three-component vectors over the reals (SimTK `Vec3`, `UnitVec3`). */
module Vec3 {

  datatype V3 = V3(x: real, y: real, z: real)

  const Zero: V3 := V3(0.0, 0.0, 0.0)

  function Add(a: V3, b: V3): V3 {
    V3(a.x + b.x, a.y + b.y, a.z + b.z)
  }

  function Neg(a: V3): V3 {
    V3(-a.x, -a.y, -a.z)
  }

  /** `v * k`, component by component. */
  function Scale(v: V3, k: real): V3 {
    V3(v.x * k, v.y * k, v.z * k)
  }

  /** Cross product `a x b`, in that order. */
  function Cross(a: V3, b: V3): V3 {
    V3(a.y * b.z - a.z * b.y, a.z * b.x - a.x * b.z, a.x * b.y - a.y * b.x)
  }

  /** Sum of a sequence of vectors, left to right. */
  function Sum(vs: seq<V3>): V3 {
    if |vs| == 0 then Zero else Add(Sum(vs[..|vs| - 1]), vs[|vs| - 1])
  }
}
