// The floorplan loader: from a parsed annotation file it keeps the wall
// rectangles for the wall pipeline and takes the first "area" shape as the
// floor, a single quad over the min/max box of its first two points.

module FloorplanLoader {
  import opened Wrappers
  import opened Geometry
  import opened WallEdges
  import opened WallLoops
  import opened WallSplit
  import opened WallBuild

  /** One annotated shape: its label, its points (each a list [x, y, ...]) and
      its shape type. */
  datatype Shape = Shape(shapeLabel: string, points: seq<seq<real>>, shapeType: string)

  /** The parsed annotation file. */
  datatype LabelmeData = LabelmeData(shapes: seq<Shape>)

  predicate IsWallRect(s: Shape) {
    s.shapeLabel == "wall" && s.shapeType == "rectangle"
  }

  predicate IsArea(s: Shape) {
    s.shapeLabel == "area"
  }

  /** The points of the wall rectangles, in file order; when every wall
      rectangle has two corners, so does every entry. */
  function WallRects(shapes: seq<Shape>): (r: seq<seq<seq<real>>>)
    ensures |r| <= |shapes|
    ensures (forall s :: s in shapes && IsWallRect(s) ==> IsRectPoints(s.points)) ==> AllRectPoints(r)
  {
    if shapes == [] then []
    else
      var rest := WallRects(shapes[1..]);
      if IsWallRect(shapes[0]) then [shapes[0].points] + rest else rest
  }

  /** The wall rectangles are exactly the points of the wall rectangle shapes:
      every one comes from such a shape, and every such shape contributes. */
  lemma {:induction false} WallRectsExactly(shapes: seq<Shape>)
    ensures forall p :: p in WallRects(shapes) <==> exists s :: s in shapes && IsWallRect(s) && s.points == p
  {
    if shapes != [] {
      WallRectsExactly(shapes[1..]);
      forall p | (exists s :: s in shapes && IsWallRect(s) && s.points == p)
        ensures p in WallRects(shapes)
      {
        var s :| s in shapes && IsWallRect(s) && s.points == p;
        if s != shapes[0] {
          assert s in shapes[1..];
        }
      }
    }
  }

  /** Order is kept: the wall rectangles of a concatenation are those of the
      first part followed by those of the second. */
  lemma {:induction false} WallRectsAppend(xs: seq<Shape>, ys: seq<Shape>)
    ensures WallRects(xs + ys) == WallRects(xs) + WallRects(ys)
  {
    if xs != [] {
      assert (xs + ys)[1..] == xs[1..] + ys;
      WallRectsAppend(xs[1..], ys);
    } else {
      assert xs + ys == ys;
    }
  }

  /** The first shape labelled "area", of any shape type, if there is one. */
  function FloorShape(shapes: seq<Shape>): (r: Option<Shape>)
    ensures r.Some? ==> r.value in shapes && IsArea(r.value)
    ensures r.None? ==> forall s :: s in shapes ==> !IsArea(s)
  {
    if shapes == [] then None
    else if IsArea(shapes[0]) then Some(shapes[0])
    else FloorShape(shapes[1..])
  }

  /** The floor shape is an "area" shape of the file preceded by none; there
      is none exactly when the file has no "area" shape. */
  lemma {:induction false} FloorShapeIsFirstArea(shapes: seq<Shape>)
    ensures FloorShape(shapes).None? <==> forall s :: s in shapes ==> !IsArea(s)
    ensures FloorShape(shapes).Some? ==> exists k :: (0 <= k < |shapes| &&
      shapes[k] == FloorShape(shapes).value && IsArea(shapes[k]) &&
      forall m :: 0 <= m < k ==> !IsArea(shapes[m]))
  {
    if shapes != [] && !IsArea(shapes[0]) {
      FloorShapeIsFirstArea(shapes[1..]);
      if FloorShape(shapes).Some? {
        var k :| 0 <= k < |shapes[1..]| && shapes[1..][k] == FloorShape(shapes).value &&
          IsArea(shapes[1..][k]) && forall m :: 0 <= m < k ==> !IsArea(shapes[1..][m]);
        assert shapes[k + 1] == shapes[1..][k];
        forall m | 0 <= m < k + 1 ensures !IsArea(shapes[m]) {
          if m > 0 { assert shapes[m] == shapes[1..][m - 1]; }
        }
      }
      forall s | s in shapes && s != shapes[0] ensures s in shapes[1..] { }
    }
  }

  /** The floor quad's corners: the min/max box of the first two points, on
      the ground. */
  function FloorVertices(points: seq<seq<real>>): seq<Vec3>
    requires IsRectPoints(points)
  {
    var p1, p2 := Corner(points, 0), Corner(points, 1);
    var xMin, xMax := Min(p1.x, p2.x), Max(p1.x, p2.x);
    var yMin, yMax := Min(p1.y, p2.y), Max(p1.y, p2.y);
    [Vec3(xMin, 0.0, yMin), Vec3(xMax, 0.0, yMin), Vec3(xMax, 0.0, yMax), Vec3(xMin, 0.0, yMax)]
  }

  /** The fixed index list of the floor quad. */
  const FloorTriangles: seq<int> := [0, 2, 1, 0, 3, 2]

  /** The floor mesh built from the area shape's points: four vertices on the
      ground and two triangles naming only them. */
  function BuildFloor(points: seq<seq<real>>): (m: Mesh)
    requires IsRectPoints(points)
    ensures ValidMesh(m) && |m.vertices| == 4 && |m.triangles| == 6
    ensures forall k :: 0 <= k < 4 ==> m.vertices[k].y == 0.0
  {
    Mesh(FloorVertices(points), FloorTriangles)
  }

  /** The floor's vertices are the corners of the box a wall rectangle over
      the same two points would have, on the ground, in the same order. */
  lemma FloorOnWallBox(points: seq<seq<real>>)
    requires IsRectPoints(points)
    ensures var c := BoxCorners(Corner(points, 0), Corner(points, 1));
      |FloorVertices(points)| == 4 &&
      forall k :: 0 <= k < 4 ==> FloorVertices(points)[k] == Ground(c[k])
  {
  }

  /** The floor does not depend on which two opposite corners are given, nor
      on their order. */
  lemma FloorCornerIndependent(points: seq<seq<real>>, other: seq<seq<real>>)
    requires IsRectPoints(points) && IsRectPoints(other)
    requires var p, q := Corner(points, 0), Corner(points, 1);
      var p', q' := Corner(other, 0), Corner(other, 1);
      (p' == q && q' == p) || (p' == Point2(p.x, q.y) && q' == Point2(q.x, p.y))
    ensures BuildFloor(other) == BuildFloor(points)
  {
  }

  /** The floor mesh is two triangles over its four vertices, and both face
      up: the vertical component of each face normal is the box's area. */
  lemma FloorFacesUp(points: seq<seq<real>>)
    requires IsRectPoints(points)
    ensures var m := BuildFloor(points);
      var v, t := m.vertices, m.triangles;
      var p1, p2 := Corner(points, 0), Corner(points, 1);
      var area := (Max(p1.x, p2.x) - Min(p1.x, p2.x)) * (Max(p1.y, p2.y) - Min(p1.y, p2.y));
      ValidMesh(m) && |t| == 6 && area >= 0.0 &&
      NormalY(v[t[0]], v[t[1]], v[t[2]]) == area &&
      NormalY(v[t[3]], v[t[4]], v[t[5]]) == area
  {
    var p1, p2 := Corner(points, 0), Corner(points, 1);
    var dx := Max(p1.x, p2.x) - Min(p1.x, p2.x);
    var dy := Max(p1.y, p2.y) - Min(p1.y, p2.y);
    assert dx >= 0.0 && dy >= 0.0;
    assert dx * dy >= 0.0;
  }

  /** Everything the shapes must supply for `FloorplanLoader.Start` not to fail on them:
      wall rectangles and the floor shape have two points of two coordinates. */
  predicate WellFormed(data: LabelmeData) {
    (forall s :: s in data.shapes && IsWallRect(s) ==> IsRectPoints(s.points)) &&
    (FloorShape(data.shapes).Some? ==> IsRectPoints(FloorShape(data.shapes).value.points))
  }

  /** The loader component: its inspector settings and what it has built. */
  class Loader {
    var jsonFile: Option<LabelmeData>
    var wallHeight: real
    var walls: Option<seq<Mesh>>
    var floor: Option<Mesh>

    constructor (jsonFile: Option<LabelmeData>)
      ensures this.jsonFile == jsonFile && wallHeight == 2.5
      ensures walls == None && floor == None
    {
      this.jsonFile := jsonFile;
      wallHeight := 2.5;
      walls := None;
      floor := None;
    }

    /** Start: with no file nothing is built; otherwise the walls are the
        prisms over the closed loops of the wall rectangles, and the floor is
        built from the first area shape if there is one. */
    method Start()
      requires jsonFile.Some? ==> WellFormed(jsonFile.value)
      modifies this
      ensures jsonFile == old(jsonFile) && wallHeight == old(wallHeight)
      ensures old(jsonFile).None? ==> walls == old(walls) && floor == old(floor)
      ensures jsonFile.Some? ==>
        var shapes := jsonFile.value.shapes;
        walls.Some? &&
        walls.value == WallMeshesOf(WallRects(shapes), wallHeight) &&
        (FloorShape(shapes).None? ==> floor == old(floor)) &&
        (FloorShape(shapes).Some? ==> floor == Some(BuildFloor(FloorShape(shapes).value.points)))
    {
      if jsonFile.None? {
        return;
      }
      var data := jsonFile.value;
      var wallRects := WallRects(data.shapes);
      var meshes, loops := BuildWallsFromRectangles(wallRects, wallHeight);
      walls := Some(meshes);
      var floorShape := FloorShape(data.shapes);
      if floorShape.Some? {
        floor := Some(BuildFloor(floorShape.value.points));
      }
    }
  }
}
