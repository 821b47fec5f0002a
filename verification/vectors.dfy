/** Three-component vectors. The vector module of the renderer is not part of
    this model; these definitions follow its uses: `norm()` is the squared
    length (objects.rs and lights.rs pair it with `length()`), `[a]` indexes
    the axes 0, 1, 2. */
module Vectors {

  datatype Vec3 = Vec3(x: real, y: real, z: real)

  /** An axis index, as taken by `Vec3`'s `Index` implementation. */
  type Axis = a: nat | a < 3

  const Zero: Vec3 := Vec3(0.0, 0.0, 0.0)

  function At(v: Vec3, a: Axis): real {
    if a == 0 then v.x else if a == 1 then v.y else v.z
  }

  function Add(u: Vec3, v: Vec3): Vec3 {
    Vec3(u.x + v.x, u.y + v.y, u.z + v.z)
  }

  function Sub(u: Vec3, v: Vec3): Vec3 {
    Vec3(u.x - v.x, u.y - v.y, u.z - v.z)
  }

  function Neg(v: Vec3): Vec3 {
    Vec3(-v.x, -v.y, -v.z)
  }

  function Scale(v: Vec3, s: real): Vec3 {
    Vec3(v.x * s, v.y * s, v.z * s)
  }

  function Dot(u: Vec3, v: Vec3): real {
    u.x * v.x + u.y * v.y + u.z * v.z
  }

  /** Squared length. */
  function Norm(v: Vec3): real {
    Dot(v, v)
  }

  /** Every component is non-zero, so the slab divisions of the box test are defined. */
  predicate NonZeroComponents(v: Vec3) {
    v.x != 0.0 && v.y != 0.0 && v.z != 0.0
  }

  lemma NormNonNegative(v: Vec3)
    ensures Norm(v) >= 0.0
  {
    assert v.x * v.x >= 0.0 && v.y * v.y >= 0.0 && v.z * v.z >= 0.0;
  }

  lemma DotNeg(u: Vec3, v: Vec3)
    ensures Dot(Neg(u), v) == -Dot(u, v)
  {
  }
}
