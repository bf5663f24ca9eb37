// Step 1 of the wall pipeline: every wall rectangle, given by two opposite
// corners in any order, becomes the four edges of its min/max box, walked
// (xMin,yMin) -> (xMax,yMin) -> (xMax,yMax) -> (xMin,yMax) -> back.

module WallEdges {
  import opened Geometry

  /** A rectangle as the annotation file holds it: a list of points whose
      first two are opposite corners, each point a list [x, y, ...]. Reading
      a shorter list makes `WallGeometryProcessor` throw, so callers must supply these. */
  predicate IsRectPoints(r: seq<seq<real>>) {
    |r| >= 2 && |r[0]| >= 2 && |r[1]| >= 2
  }

  predicate AllRectPoints(rects: seq<seq<seq<real>>>) {
    forall k :: 0 <= k < |rects| ==> IsRectPoints(rects[k])
  }

  /** Corner k (0 or 1) of a rectangle in file form. */
  function Corner(r: seq<seq<real>>, k: nat): Point2
    requires IsRectPoints(r) && k < 2
  {
    Point2(r[k][0], r[k][1])
  }

  /** The four corners of the min/max box spanned by p and q, in walking order. */
  function BoxCorners(p: Point2, q: Point2): seq<Point2> {
    var xMin, xMax := Min(p.x, q.x), Max(p.x, q.x);
    var yMin, yMax := Min(p.y, q.y), Max(p.y, q.y);
    [Point2(xMin, yMin), Point2(xMax, yMin), Point2(xMax, yMax), Point2(xMin, yMax)]
  }

  /** The four edges a rectangle with opposite corners p and q contributes. */
  function RectEdges(p: Point2, q: Point2): seq<Edge> {
    var c := BoxCorners(p, q);
    [Edge(c[0], c[1]), Edge(c[1], c[2]), Edge(c[2], c[3]), Edge(c[3], c[0])]
  }

  /** The edges of all rectangles, rectangle by rectangle, in input order. */
  function AllRectEdges(rects: seq<seq<seq<real>>>): seq<Edge>
    requires AllRectPoints(rects)
  {
    if rects == [] then []
    else
      var last := rects[|rects| - 1];
      AllRectEdges(rects[..|rects| - 1]) + RectEdges(Corner(last, 0), Corner(last, 1))
  }

  /** The four edges form a closed cycle over the min/max corners: edge k ends
      where edge k+1 (mod 4) starts, edges 0 to 3 start at the corners
      (xMin, yMin), (xMax, yMin), (xMax, yMax) and (xMin, yMax), and the edges
      run counter-clockwise around the box: right, up, left, down. */
  lemma RectEdgesCycle(p: Point2, q: Point2)
    ensures |RectEdges(p, q)| == 4
    ensures forall k :: 0 <= k < 4 ==> RectEdges(p, q)[k].b == RectEdges(p, q)[(k + 1) % 4].a
    ensures RectEdges(p, q)[0].a == Point2(Min(p.x, q.x), Min(p.y, q.y))
    ensures RectEdges(p, q)[1].a == Point2(Max(p.x, q.x), Min(p.y, q.y))
    ensures RectEdges(p, q)[2].a == Point2(Max(p.x, q.x), Max(p.y, q.y))
    ensures RectEdges(p, q)[3].a == Point2(Min(p.x, q.x), Max(p.y, q.y))
    ensures RectEdges(p, q)[0].a.x <= RectEdges(p, q)[0].b.x && RectEdges(p, q)[0].a.y == RectEdges(p, q)[0].b.y
    ensures RectEdges(p, q)[1].a.y <= RectEdges(p, q)[1].b.y && RectEdges(p, q)[1].a.x == RectEdges(p, q)[1].b.x
    ensures RectEdges(p, q)[2].a.x >= RectEdges(p, q)[2].b.x && RectEdges(p, q)[2].a.y == RectEdges(p, q)[2].b.y
    ensures RectEdges(p, q)[3].a.y >= RectEdges(p, q)[3].b.y && RectEdges(p, q)[3].a.x == RectEdges(p, q)[3].b.x
  {
    var es := RectEdges(p, q);
    forall k | 0 <= k < 4 ensures es[k].b == es[(k + 1) % 4].a {
      if k == 3 { assert (k + 1) % 4 == 0; }
    }
  }

  /** The edges depend only on the box: the two corners may come in either
      order, and the other diagonal of the same box gives the same edges. */
  lemma RectEdgesCornerIndependent(p: Point2, q: Point2)
    ensures RectEdges(p, q) == RectEdges(q, p)
    ensures RectEdges(p, q) == RectEdges(Point2(p.x, q.y), Point2(q.x, p.y))
  {
  }

  /** Every rectangle contributes exactly four edges, and edge j of rectangle k
      sits at position 4k + j of the concatenated list. */
  lemma {:induction false} AllRectEdgesAt(rects: seq<seq<seq<real>>>, k: nat, j: nat)
    requires AllRectPoints(rects)
    requires k < |rects| && j < 4
    ensures |AllRectEdges(rects)| == 4 * |rects|
    ensures AllRectEdges(rects)[4 * k + j] == RectEdges(Corner(rects[k], 0), Corner(rects[k], 1))[j]
    decreases |rects|
  {
    var init := rects[..|rects| - 1];
    assert AllRectPoints(init) by {
      forall m | 0 <= m < |init| ensures IsRectPoints(init[m]) { assert init[m] == rects[m]; }
    }
    if k < |rects| - 1 {
      AllRectEdgesAt(init, k, j);
      assert init[k] == rects[k];
    } else if |init| > 0 {
      AllRectEdgesAt(init, 0, 0);
    }
  }

  /** The `foreach` over the rectangles: each becomes its min/max box, whose
      four corners are kept in a small array and joined cyclically. */
  method RectanglesToEdges(rectangles: seq<seq<seq<real>>>) returns (edges: seq<Edge>)
    requires AllRectPoints(rectangles)
    ensures edges == AllRectEdges(rectangles)
  {
    edges := [];
    for n := 0 to |rectangles|
      invariant edges == AllRectEdges(rectangles[..n])
    {
      var rect := rectangles[n];
      var a := Point2(rect[0][0], rect[0][1]);
      var b := Point2(rect[1][0], rect[1][1]);
      var xMin, xMax := Min(a.x, b.x), Max(a.x, b.x);
      var yMin, yMax := Min(a.y, b.y), Max(a.y, b.y);
      var corners := new Point2[] [Point2(xMin, yMin), Point2(xMax, yMin), Point2(xMax, yMax), Point2(xMin, yMax)];
      assert corners[..] == BoxCorners(a, b);
      for i := 0 to 4
        invariant edges == AllRectEdges(rectangles[..n]) + RectEdges(a, b)[..i]
      {
        var e := Edge(corners[i], corners[(i + 1) % 4]);
        edges := edges + [e];
      }
      assert rectangles[..n + 1][..n] == rectangles[..n];
    }
    assert rectangles[..|rectangles|] == rectangles;
  }
}
