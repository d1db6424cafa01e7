/** Small value types shared by the three scripts. */
module Common {

  /** A value that may be missing: Python's `None` versus a present value. */
  datatype Option<T> = None | Some(value: T)

  /** An ordered triple of reals: a point, a size or a centroid, in metres. */
  datatype Vec3 = Vec3(x: real, y: real, z: real)

  /** Componentwise difference `a - b`. */
  function Sub(a: Vec3, b: Vec3): Vec3 {
    Vec3(a.x - b.x, a.y - b.y, a.z - b.z)
  }

  /** Squared Euclidean distance between two points. */
  function Dist2(a: Vec3, b: Vec3): (r: real)
    ensures r >= 0.0
  {
    var d := Sub(a, b);
    d.x * d.x + d.y * d.y + d.z * d.z
  }

  function Max(a: real, b: real): real {
    if a >= b then a else b
  }
}
