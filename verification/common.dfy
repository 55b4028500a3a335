/** Small shared vocabulary: an optional value (the source's `number | null`),
    planar vectors and absolute value on reals. */
module Common {

  /** `None` stands for JavaScript's `null` / `undefined`. */
  datatype Option<+T> = None | Some(value: T)

  /** A vector in the ground plane; a body's (x, z) position is read as (x, y). */
  datatype Vec = Vec(x: real, y: real)

  const Zero: Vec := Vec(0.0, 0.0)

  function Scale(v: Vec, k: real): Vec
  {
    Vec(v.x * k, v.y * k)
  }

  function Abs(a: real): (r: real)
    ensures 0.0 <= r
    ensures r == a || r == -a
  {
    if a < 0.0 then -a else a
  }
}
