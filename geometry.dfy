// Shared value types of the floorplan core: planar points, directed edges,
// 3D vectors and meshes.
//
// Coordinates are `real`: the single-precision rounding of Unity's `float`
// is not modelled. Points are compared with exact equality, which is what the
// hash-based collections of the C# code (list membership, grouping, hash
// sets) use.

module Geometry {

  /** A planar coordinate (x, y) of the floorplan. */
  datatype Point2 = Point2(x: real, y: real)

  /** A directed edge from `a` to `b`. */
  datatype Edge = Edge(a: Point2, b: Point2)

  /** A 3D position; y is the vertical axis. */
  datatype Vec3 = Vec3(x: real, y: real, z: real)

  /** A mesh held as plain buffers: positions, and three indices per triangle. */
  datatype Mesh = Mesh(vertices: seq<Vec3>, triangles: seq<int>)

  /** The smaller of two values; on a tie, the second. */
  function Min(a: real, b: real): (m: real)
    ensures m <= a && m <= b && (m == a || m == b)
  {
    if a < b then a else b
  }

  /** The larger of two values; on a tie, the second. */
  function Max(a: real, b: real): (m: real)
    ensures m >= a && m >= b && (m == a || m == b)
  {
    if a > b then a else b
  }

  function Abs(x: real): (r: real)
    ensures r >= 0.0 && (r == x || r == -x)
  {
    if x < 0.0 then -x else x
  }

  function Add(u: Vec3, v: Vec3): Vec3 {
    Vec3(u.x + v.x, u.y + v.y, u.z + v.z)
  }

  function Sub(u: Vec3, v: Vec3): Vec3 {
    Vec3(u.x - v.x, u.y - v.y, u.z - v.z)
  }

  /** The vertical (y) component of the cross product u x v. */
  function CrossY(u: Vec3, v: Vec3): real {
    u.z * v.x - u.x * v.z
  }

  /** The world's up direction scaled by h. */
  function Up(h: real): Vec3 {
    Vec3(0.0, h, 0.0)
  }

  /** A floorplan point placed on the ground: plan x and y become world x
      and z. */
  function Ground(p: Point2): Vec3 {
    Vec3(p.x, 0.0, p.y)
  }

  /** The vertical component of the normal of the triangle (u, v, w), taken
      as the cross product (v - u) x (w - u) the engine uses for face normals;
      positive means the face looks up. */
  function NormalY(u: Vec3, v: Vec3, w: Vec3): real {
    CrossY(Sub(v, u), Sub(w, u))
  }

  /** Three indices per triangle, each naming one of the mesh's vertices. */
  predicate ValidMesh(m: Mesh) {
    |m.triangles| % 3 == 0 &&
    forall k :: 0 <= k < |m.triangles| ==> 0 <= m.triangles[k] < |m.vertices|
  }
}
