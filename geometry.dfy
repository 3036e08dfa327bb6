/** Plane vectors and the homogeneous 3x3 matrices that place a shape in the world.
    Coordinates are exact reals; the engine's single-precision floats are not modelled. */
module Geometry {

  datatype Option<T> = None | Some(value: T)

  datatype Vec2 = Vec2(x: real, y: real)

  /** A 3x3 matrix, row by row, as produced by a transform for homogeneous 2D points. */
  datatype Matrix3 = Matrix3(
    m00: real, m01: real, m02: real,
    m10: real, m11: real, m12: real,
    m20: real, m21: real, m22: real)

  /** The matrix that only moves a point by `t`. */
  function Translation(t: Vec2): Matrix3
  {
    Matrix3(1.0, 0.0, t.x,
            0.0, 1.0, t.y,
            0.0, 0.0, 1.0)
  }

  /** Extends `p` to (x, y, 1), multiplies by `m` and drops the third component. */
  function Apply(m: Matrix3, p: Vec2): Vec2
  {
    Vec2(m.m00 * p.x + m.m01 * p.y + m.m02,
         m.m10 * p.x + m.m11 * p.y + m.m12)
  }

  /** Translating by `t` adds `t` to every point. */
  lemma ApplyTranslation(t: Vec2, p: Vec2)
    ensures Apply(Translation(t), p) == Vec2(p.x + t.x, p.y + t.y)
  {
  }

  /** The projection of `p` onto the axis `n` (a dot product; `n` need not be unit length). */
  function Project(n: Vec2, p: Vec2): real
  {
    n.x * p.x + n.y * p.y
  }

  /** The normal of the edge from `p1` to `p2`: (p2.y - p1.y, p1.x - p2.x). */
  function EdgeNormal(p1: Vec2, p2: Vec2): Vec2
  {
    Vec2(p2.y - p1.y, p1.x - p2.x)
  }

  /** The normal is perpendicular to its edge (both end points project to the same value)
      and vanishes exactly when the edge is degenerate. */
  lemma EdgeNormalIsPerpendicular(p1: Vec2, p2: Vec2)
    ensures Project(EdgeNormal(p1, p2), p1) == Project(EdgeNormal(p1, p2), p2)
    ensures EdgeNormal(p1, p2) == Vec2(0.0, 0.0) <==> p1 == p2
  {
  }
}
