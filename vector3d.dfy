/**
  Three-component vectors over the reals: the part of irr::core::vector3df that the
  skinned mesh uses (componentwise sum, difference and scaling).
 */
module Vector3d {

  datatype Vec3 = Vec3(x: real, y: real, z: real)

  /** The value of a default-constructed vector3df. */
  const Zero: Vec3 := Vec3(0.0, 0.0, 0.0)

  function Add(a: Vec3, b: Vec3): Vec3 {
    Vec3(a.x + b.x, a.y + b.y, a.z + b.z)
  }

  function Sub(a: Vec3, b: Vec3): Vec3 {
    Vec3(a.x - b.x, a.y - b.y, a.z - b.z)
  }

  /** `v * s` and `s * v`. */
  function Scale(v: Vec3, s: real): Vec3 {
    Vec3(v.x * s, v.y * s, v.z * s)
  }

  /** `v / s`. */
  function Div(v: Vec3, s: real): Vec3
    requires s != 0.0
  {
    Vec3(v.x / s, v.y / s, v.z / s)
  }
}
