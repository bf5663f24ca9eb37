// The whole wall pipeline: rectangles to edges, edges split at crossings,
// closed loops walked out of the split edges, and one extruded prism mesh per
// loop of at least three points.

module WallBuild {
  import opened Geometry
  import opened WallEdges
  import opened WallSplit
  import opened WallLoops
  import opened WallExtrude

  /** The prism mesh the extrusion builds for a loop. */
  function PrismMesh(loop: seq<Point2>, height: real): Mesh
    requires |loop| >= 2
  {
    Mesh(PrismVertices(loop, height), Flatten(PrismTris(|loop|)))
  }

  /** Every mesh of the wall set is a prism over a loop of the split edges. */
  predicate WallMeshes(meshes: seq<Mesh>, loops: seq<seq<Point2>>, edges: seq<Edge>, height: real) {
    |meshes| == |loops| &&
    (forall k :: 0 <= k < |loops| ==> IsLoop(loops[k], edges)) &&
    (forall i, j :: 0 <= i < j < |loops| ==> Disjoint(loops[i], loops[j])) &&
    forall k :: 0 <= k < |loops| ==> |loops[k]| >= 3 && meshes[k] == PrismMesh(loops[k], height)
  }

  /** Every wall mesh is well formed, has 2n vertices and 4n - 4 triangles for
      its n-point loop, and stands on its loop: vertex i is loop point i on the
      ground and vertex i + n the same point raised by the wall height. */
  lemma WallMeshesWellFormed(meshes: seq<Mesh>, loops: seq<seq<Point2>>, edges: seq<Edge>, height: real, k: nat)
    requires WallMeshes(meshes, loops, edges, height) && k < |meshes|
    ensures ValidMesh(meshes[k])
    ensures |meshes[k].vertices| == 2 * |loops[k]|
    ensures |meshes[k].triangles| == 3 * (4 * |loops[k]| - 4)
    ensures forall i :: 0 <= i < |loops[k]| ==>
      meshes[k].vertices[i] == Ground(loops[k][i]) &&
      meshes[k].vertices[i + |loops[k]|] == Add(meshes[k].vertices[i], Up(height))
  {
    var l := loops[k];
    PrismMeshValid(l, height);
    PrismTriangleCount(|l|);
    forall i | 0 <= i < |l|
      ensures meshes[k].vertices[i] == Ground(l[i]) &&
        meshes[k].vertices[i + |l|] == Add(meshes[k].vertices[i], Up(height))
    {
      PrismVerticesShape(l, height, i);
    }
  }

  /** The loops the pipeline extrudes: the closed loops of the rectangles'
      edges once split at their crossings. */
  function WallLoopsOf(rectangles: seq<seq<seq<real>>>): seq<seq<Point2>>
    requires AllRectPoints(rectangles)
  {
    ClosedLoops(SplitAll(AllRectEdges(rectangles)))
  }

  /** One prism mesh per loop of at least two points, in loop order. */
  function PrismMeshes(loops: seq<seq<Point2>>, height: real): (meshes: seq<Mesh>)
    requires forall k :: 0 <= k < |loops| ==> |loops[k]| >= 2
    ensures |meshes| == |loops|
    ensures forall k :: 0 <= k < |loops| ==> meshes[k] == PrismMesh(loops[k], height)
  {
    if loops == [] then [] else PrismMeshes(loops[..|loops| - 1], height) + [PrismMesh(loops[|loops| - 1], height)]
  }

  /** The wall meshes the pipeline builds for the rectangles: one prism per
      found loop, every one of which has at least three points. */
  function WallMeshesOf(rectangles: seq<seq<seq<real>>>, height: real): seq<Mesh>
    requires AllRectPoints(rectangles)
  {
    var loops := WallLoopsOf(rectangles);
    ClosedLoopsSound(SplitAll(AllRectEdges(rectangles)));
    assert forall k :: 0 <= k < |loops| ==> loops[k] in loops;
    PrismMeshes(loops, height)
  }

  /** The extrusion loop of `WallGeometryProcessor.BuildWallsFromRectangles`:
      a prism mesh for each found loop of at least three points, in loop
      order. Found loops all have three points or more, so none is
      skipped. */
  method ExtrudeLoops(found: seq<seq<Point2>>, edges: seq<Edge>, height: real)
    returns (meshes: seq<Mesh>, loops: seq<seq<Point2>>)
    requires SoundLoops(edges, found)
    ensures loops == found
    ensures WallMeshes(meshes, loops, edges, height)
    ensures meshes == PrismMeshes(loops, height)
  {
    meshes := [];
    loops := [];
    for n := 0 to |found|
      invariant WallMeshes(meshes, loops, edges, height)
      invariant loops == found[..n]
    {
      var loop := found[n];
      assert loop in found;
      if |loop| < 3 {
        continue;
      }
      var mesh := TriangulateAndExtrude(loop, height);
      meshes := meshes + [mesh];
      loops := loops + [loop];
    }
    assert found[..|found|] == found;
    WallMeshesArePrisms(meshes, loops, edges, height);
  }

  /** The pipeline of `WallGeometryProcessor.BuildWallsFromRectangles`,
      without the scene objects: the meshes come back as plain buffers, one
      per found loop of at least three points, in loop order, together with
      the loops they stand on. Every found loop has three points or more, so
      the loops are exactly the found loops. */
  method BuildWallsFromRectangles(rectangles: seq<seq<seq<real>>>, height: real)
    returns (meshes: seq<Mesh>, loops: seq<seq<Point2>>)
    requires AllRectPoints(rectangles)
    ensures loops == WallLoopsOf(rectangles)
    ensures WallMeshes(meshes, loops, SplitAll(AllRectEdges(rectangles)), height)
    ensures meshes == WallMeshesOf(rectangles, height)
  {
    var edges := RectanglesToEdges(rectangles);
    var splitEdges := SplitEdgesAtIntersections(edges);
    var found := FindClosedLoops(splitEdges);
    meshes, loops := ExtrudeLoops(found, splitEdges, height);
  }

  /** Meshes that are the prisms of their loops are the mesh list the loops
      determine. */
  lemma WallMeshesArePrisms(meshes: seq<Mesh>, loops: seq<seq<Point2>>, edges: seq<Edge>, height: real)
    requires WallMeshes(meshes, loops, edges, height)
    ensures meshes == PrismMeshes(loops, height)
  {
  }
}
