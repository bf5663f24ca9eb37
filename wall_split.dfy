// Step 2 of the wall pipeline: every edge is cut at the points where other
// edges cross it. Crossings come from the determinant method on the two
// supporting lines; a determinant below 0.001 in magnitude counts as
// parallel, and a crossing is kept only inside both segments' bounding boxes
// widened by 0.01 on each side. The cut points of an edge are its own two
// endpoints followed by the accepted crossings (an exact duplicate is not
// added twice), ordered by distance from the edge's start; consecutive cut
// points become the sub-edges.

module WallSplit {
  import opened Wrappers
  import opened Geometry

  /** Below this magnitude the determinant of two lines counts as zero. */
  const ParallelEpsilon: real := 0.001
  /** How far outside a segment's bounding box a crossing may lie. */
  const BoxTolerance: real := 0.01

  /** The implicit line a*x + b*y == c. */
  datatype Line = Line(a: real, b: real, c: real)

  predicate OnLine(l: Line, p: Point2) {
    l.a * p.x + l.b * p.y == l.c
  }

  /** The line coefficients `LineSegmentsIntersect` derives from two points. */
  function LineThrough(p1: Point2, p2: Point2): Line {
    var a := p2.y - p1.y;
    var b := p1.x - p2.x;
    Line(a, b, a * p1.x + b * p1.y)
  }

  /** Both points lie on the line derived from them. */
  lemma LineThroughEndpoints(p1: Point2, p2: Point2)
    ensures OnLine(LineThrough(p1, p2), p1) && OnLine(LineThrough(p1, p2), p2)
  {
    var l := LineThrough(p1, p2);
    calc {
      l.a * p2.x + l.b * p2.y - l.c;
      (p2.y - p1.y) * (p2.x - p1.x) + (p1.x - p2.x) * (p2.y - p1.y);
      0.0;
    }
  }

  function Det(l1: Line, l2: Line): real {
    l1.a * l2.b - l2.a * l1.b
  }

  /** The point Cramer's rule gives for two lines. */
  function CramerPoint(l1: Line, l2: Line): Point2
    requires Det(l1, l2) != 0.0
  {
    var det := Det(l1, l2);
    Point2((l2.b * l1.c - l1.b * l2.c) / det, (l1.a * l2.c - l2.a * l1.c) / det)
  }

  /** p lies in the bounding box of segment a-b widened by the tolerance. */
  predicate IsBetween(a: Point2, b: Point2, p: Point2) {
    Min(a.x, b.x) - BoxTolerance <= p.x && p.x <= Max(a.x, b.x) + BoxTolerance &&
    Min(a.y, b.y) - BoxTolerance <= p.y && p.y <= Max(a.y, b.y) + BoxTolerance
  }

  /** The crossing of segments p1-p2 and q1-q2, if
      `WallGeometryProcessor.LineSegmentsIntersect` accepts one: a crossing
      lies on both supporting lines and inside both boxes widened by the
      tolerance, and lines parallel within the threshold give none. */
  function LineSegmentsIntersect(p1: Point2, p2: Point2, q1: Point2, q2: Point2): (r: Option<Point2>)
    ensures r.Some? ==>
      OnLine(LineThrough(p1, p2), r.value) && OnLine(LineThrough(q1, q2), r.value) &&
      IsBetween(p1, p2, r.value) && IsBetween(q1, q2, r.value)
    ensures r.Some? ==> Abs(Det(LineThrough(p1, p2), LineThrough(q1, q2))) >= ParallelEpsilon
  {
    var l1 := LineThrough(p1, p2);
    var l2 := LineThrough(q1, q2);
    var det := Det(l1, l2);
    if Abs(det) < ParallelEpsilon then None
    else
      var p := CramerPoint(l1, l2);
      CramerOnBoth(l1, l2);
      if IsBetween(p1, p2, p) && IsBetween(q1, q2, p) then Some(p) else None
  }

  /** The crossing test applied to two edges. */
  function Crossing(e1: Edge, e2: Edge): Option<Point2> {
    LineSegmentsIntersect(e1.a, e1.b, e2.a, e2.b)
  }

  /** Cramer's point lies on both lines. */
  lemma CramerOnBoth(l1: Line, l2: Line)
    requires Det(l1, l2) != 0.0
    ensures OnLine(l1, CramerPoint(l1, l2)) && OnLine(l2, CramerPoint(l1, l2))
  {
    var det := Det(l1, l2);
    var p := CramerPoint(l1, l2);
    var nx, ny := l2.b * l1.c - l1.b * l2.c, l1.a * l2.c - l2.a * l1.c;
    assert p.x * det == nx && p.y * det == ny;
    calc {
      (l1.a * p.x + l1.b * p.y) * det;
      l1.a * (p.x * det) + l1.b * (p.y * det);
      l1.a * nx + l1.b * ny;
      l1.c * det;
    }
    calc {
      (l2.a * p.x + l2.b * p.y) * det;
      l2.a * (p.x * det) + l2.b * (p.y * det);
      l2.a * nx + l2.b * ny;
      l2.c * det;
    }
  }

  /** Any point on both lines is Cramer's point: non-parallel lines meet once. */
  lemma CramerUnique(l1: Line, l2: Line, p: Point2)
    requires Det(l1, l2) != 0.0
    requires OnLine(l1, p) && OnLine(l2, p)
    ensures p == CramerPoint(l1, l2)
  {
    var det := Det(l1, l2);
    var q := CramerPoint(l1, l2);
    calc {
      p.x * det;
      l2.b * (l1.a * p.x + l1.b * p.y) - l1.b * (l2.a * p.x + l2.b * p.y);
      l2.b * l1.c - l1.b * l2.c;
    }
    calc {
      p.y * det;
      l1.a * (l2.a * p.x + l2.b * p.y) - l2.a * (l1.a * p.x + l1.b * p.y);
      l1.a * l2.c - l2.a * l1.c;
    }
    assert q.x * det == l2.b * l1.c - l1.b * l2.c;
    assert q.y * det == l1.a * l2.c - l2.a * l1.c;
  }

  /** The accepted crossing is exactly the point that lies on both supporting
      lines and inside both widened boxes, and there is none when the lines
      are parallel within the threshold. */
  lemma IntersectionIff(p1: Point2, p2: Point2, q1: Point2, q2: Point2, p: Point2)
    ensures LineSegmentsIntersect(p1, p2, q1, q2) == Some(p) <==>
      Abs(Det(LineThrough(p1, p2), LineThrough(q1, q2))) >= ParallelEpsilon &&
      OnLine(LineThrough(p1, p2), p) && OnLine(LineThrough(q1, q2), p) &&
      IsBetween(p1, p2, p) && IsBetween(q1, q2, p)
  {
    var l1, l2 := LineThrough(p1, p2), LineThrough(q1, q2);
    if Abs(Det(l1, l2)) >= ParallelEpsilon {
      CramerOnBoth(l1, l2);
      if OnLine(l1, p) && OnLine(l2, p) {
        CramerUnique(l1, l2, p);
      }
    }
  }

  /** Segments that the threshold calls parallel never cross. */
  lemma ParallelNeverCross(p1: Point2, p2: Point2, q1: Point2, q2: Point2)
    requires Abs(Det(LineThrough(p1, p2), LineThrough(q1, q2))) < ParallelEpsilon
    ensures LineSegmentsIntersect(p1, p2, q1, q2) == None
  {
  }

  /** The two diagonals of the unit square cross at its centre. */
  lemma DiagonalsCross()
    ensures LineSegmentsIntersect(Point2(0.0, 0.0), Point2(1.0, 1.0), Point2(0.0, 1.0), Point2(1.0, 0.0))
         == Some(Point2(0.5, 0.5))
  {
    var l1 := LineThrough(Point2(0.0, 0.0), Point2(1.0, 1.0));
    var l2 := LineThrough(Point2(0.0, 1.0), Point2(1.0, 0.0));
    assert l1 == Line(1.0, -1.0, 0.0) && l2 == Line(-1.0, -1.0, -1.0);
    assert Det(l1, l2) == -2.0;
    assert CramerPoint(l1, l2) == Point2(0.5, 0.5);
  }

  /** Two parallel unit segments do not cross. */
  lemma ParallelSegmentsDoNotCross()
    ensures LineSegmentsIntersect(Point2(0.0, 0.0), Point2(1.0, 0.0), Point2(0.0, 1.0), Point2(1.0, 1.0))
         == None
  {
    var l3 := LineThrough(Point2(0.0, 0.0), Point2(1.0, 0.0));
    var l4 := LineThrough(Point2(0.0, 1.0), Point2(1.0, 1.0));
    assert l3 == Line(0.0, -1.0, 0.0) && l4 == Line(0.0, -1.0, -1.0);
    assert Det(l3, l4) == 0.0;
  }

  // ---------------------------------------------------------------------
  // Cut points of one edge

  /** What the inner loop sees for edge i at each position j: nothing for
      edge i itself, otherwise the crossing test's answer. */
  function Crossings(edges: seq<Edge>, i: nat): (hits: seq<Option<Point2>>)
    requires i < |edges|
  {
    seq(|edges|, j requires 0 <= j < |edges| =>
      if j == i then None
      else Crossing(edges[i], edges[j]))
  }

  /** The cut-point list of edge e after the inner loop has looked at the
      first `upto` answers: e's endpoints, then each new crossing once. */
  function CutPoints(e: Edge, hits: seq<Option<Point2>>, upto: nat): seq<Point2>
    requires upto <= |hits|
  {
    if upto == 0 then [e.a, e.b]
    else
      var acc := CutPoints(e, hits, upto - 1);
      match hits[upto - 1]
      case Some(p) => if p in acc then acc else acc + [p]
      case None => acc
  }

  function SplitPoints(edges: seq<Edge>, i: nat): seq<Point2>
    requires i < |edges|
  {
    CutPoints(edges[i], Crossings(edges, i), |edges|)
  }

  /** The cut-point list starts with the edge's start and end; every further
      point is one of the crossings seen, none of them an exact duplicate of
      an earlier point; and every crossing seen is in the list. */
  lemma CutPointsFacts(e: Edge, hits: seq<Option<Point2>>, upto: nat)
    requires upto <= |hits|
    ensures var pts := CutPoints(e, hits, upto);
      |pts| >= 2 && pts[0] == e.a && pts[1] == e.b &&
      (forall k :: 2 <= k < |pts| ==> pts[k] !in pts[..k]) &&
      (forall k :: 2 <= k < |pts| ==> exists j :: 0 <= j < upto && hits[j] == Some(pts[k])) &&
      (forall j :: 0 <= j < upto && hits[j].Some? ==> hits[j].value in pts)
  {
    CutPointsStart(e, hits, upto);
    CutPointsNew(e, hits, upto);
    CutPointsComplete(e, hits, upto);
  }

  /** The list starts with the edge's endpoints, and each step only appends. */
  lemma {:induction false} CutPointsStart(e: Edge, hits: seq<Option<Point2>>, upto: nat)
    requires upto <= |hits|
    ensures var pts := CutPoints(e, hits, upto);
      |pts| >= 2 && pts[0] == e.a && pts[1] == e.b
    decreases upto
  {
    if upto > 0 {
      CutPointsStart(e, hits, upto - 1);
    }
  }

  /** Each point after the endpoints is a crossing seen and is new. */
  lemma {:induction false} CutPointsNew(e: Edge, hits: seq<Option<Point2>>, upto: nat)
    requires upto <= |hits|
    ensures var pts := CutPoints(e, hits, upto);
      (forall k :: 2 <= k < |pts| ==> pts[k] !in pts[..k]) &&
      (forall k :: 2 <= k < |pts| ==> exists j :: 0 <= j < upto && hits[j] == Some(pts[k]))
    decreases upto
  {
    if upto > 0 {
      CutPointsNew(e, hits, upto - 1);
      assert var pts := CutPoints(e, hits, upto - 1);
        forall k :: 2 <= k < |pts| ==> pts[k] !in pts[..k];
      var acc := CutPoints(e, hits, upto - 1);
      var pts := CutPoints(e, hits, upto);
      assert forall k :: 2 <= k < |acc| ==> acc[k] !in acc[..k];
      assert forall k :: 2 <= k < |acc| ==> exists j :: 0 <= j < upto - 1 && hits[j] == Some(acc[k]);
      if hits[upto - 1].Some? && hits[upto - 1].value !in acc {
        assert pts == acc + [hits[upto - 1].value];
        forall k | 2 <= k < |pts|
          ensures pts[k] !in pts[..k]
          ensures exists j :: 0 <= j < upto && hits[j] == Some(pts[k])
        {
          if k < |acc| {
            assert pts[..k] == acc[..k];
            assert pts[k] == acc[k];
            var j :| 0 <= j < upto - 1 && hits[j] == Some(acc[k]);
            assert hits[j] == Some(pts[k]);
          } else {
            assert pts[..k] == acc;
            assert hits[upto - 1] == Some(pts[k]);
          }
        }
      } else {
        assert pts == acc;
        forall k | 2 <= k < |pts|
          ensures exists j :: 0 <= j < upto && hits[j] == Some(pts[k])
        {
          var j :| 0 <= j < upto - 1 && hits[j] == Some(acc[k]);
          assert hits[j] == Some(pts[k]);
        }
      }
    }
  }

  /** Every crossing seen is in the list. */
  lemma {:induction false} CutPointsComplete(e: Edge, hits: seq<Option<Point2>>, upto: nat)
    requires upto <= |hits|
    ensures forall j :: 0 <= j < upto && hits[j].Some? ==> hits[j].value in CutPoints(e, hits, upto)
    decreases upto
  {
    if upto > 0 {
      CutPointsComplete(e, hits, upto - 1);
      var acc := CutPoints(e, hits, upto - 1);
      assert forall p :: p in acc ==> p in CutPoints(e, hits, upto);
    }
  }

  /** The crossings edge i has with the OTHER edges of the list. */
  function AcceptedPoints(edges: seq<Edge>, i: nat): set<Point2>
    requires i < |edges|
  {
    set j | 0 <= j < |edges| && j != i && Crossing(edges[i], edges[j]).Some? ::
      Crossing(edges[i], edges[j]).value
  }

  /** The cut points of edge i in the list: its start and end come first;
      every further point is a crossing with some OTHER edge (an edge is
      never tested against itself) and is not an exact duplicate of an
      earlier point; and every crossing with another edge is present. */
  lemma SplitPointsFacts(edges: seq<Edge>, i: nat)
    requires i < |edges|
    ensures var pts := SplitPoints(edges, i);
      |pts| >= 2 && pts[0] == edges[i].a && pts[1] == edges[i].b &&
      (forall k :: 2 <= k < |pts| ==> pts[k] !in pts[..k]) &&
      (forall k :: 2 <= k < |pts| ==> pts[k] in AcceptedPoints(edges, i)) &&
      (forall p :: p in AcceptedPoints(edges, i) ==> p in pts)
  {
    var hits := Crossings(edges, i);
    var pts := SplitPoints(edges, i);
    CutPointsFacts(edges[i], hits, |edges|);
    forall k | 2 <= k < |pts| ensures pts[k] in AcceptedPoints(edges, i) {
      var j :| 0 <= j < |edges| && hits[j] == Some(pts[k]);
      assert j != i;
      assert Crossing(edges[i], edges[j]) == Some(pts[k]);
    }
    forall p | p in AcceptedPoints(edges, i) ensures p in pts {
      var j :| 0 <= j < |edges| && j != i && Crossing(edges[i], edges[j]) == Some(p);
      assert hits[j] == Some(p);
    }
  }

  /** Every cut point of edge i lies on the edge's supporting line and inside
      its bounding box widened by the tolerance. */
  lemma SplitPointsOnParent(edges: seq<Edge>, i: nat, p: Point2)
    requires i < |edges|
    requires p in SplitPoints(edges, i)
    ensures OnLine(LineThrough(edges[i].a, edges[i].b), p)
    ensures IsBetween(edges[i].a, edges[i].b, p)
  {
    var e := edges[i];
    var hits := Crossings(edges, i);
    var pts := SplitPoints(edges, i);
    if p == e.a || p == e.b {
      LineThroughEndpoints(e.a, e.b);
    } else {
      CutPointsStart(e, hits, |edges|);
      CutPointsNew(e, hits, |edges|);
      var k :| 0 <= k < |pts| && pts[k] == p;
      assert 2 <= k;
      var j :| 0 <= j < |edges| && hits[j] == Some(p);
      assert j != i && Crossing(e, edges[j]) == Some(p);
      CrossingOnFirst(e, edges[j], p);
    }
  }

  /** An accepted crossing lies on the first edge's line and in its box. */
  lemma CrossingOnFirst(e1: Edge, e2: Edge, p: Point2)
    requires Crossing(e1, e2) == Some(p)
    ensures OnLine(LineThrough(e1.a, e1.b), p) && IsBetween(e1.a, e1.b, p)
  {
    IntersectionIff(e1.a, e1.b, e2.a, e2.b, p);
  }

  // ---------------------------------------------------------------------
  // Ordering by distance from the edge's start

  /** Squared distance; it orders points as the Euclidean distance does. */
  function DistSq(o: Point2, p: Point2): (d: real)
    ensures d >= 0.0 && (p == o ==> d == 0.0)
  {
    (p.x - o.x) * (p.x - o.x) + (p.y - o.y) * (p.y - o.y)
  }

  predicate SortedBy(key: Point2 -> real, s: seq<Point2>) {
    forall i, j :: 0 <= i < j < |s| ==> key(s[i]) <= key(s[j])
  }

  /** Inserts x after every element whose key is not larger than x's, which
      keeps elements with equal keys in their original order. */
  function InsertBy(key: Point2 -> real, x: Point2, s: seq<Point2>): (r: seq<Point2>)
    ensures |r| == |s| + 1
  {
    if s == [] then [x]
    else if key(x) < key(s[0]) then [x] + s
    else [s[0]] + InsertBy(key, x, s[1..])
  }

  /** The stable ordering by a key of LINQ's `OrderBy`: each element
      in turn is inserted after the ones before it with an equal key. */
  function SortBy(key: Point2 -> real, s: seq<Point2>): (r: seq<Point2>)
    ensures |r| == |s|
    decreases |s|
  {
    if s == [] then [] else InsertBy(key, s[|s| - 1], SortBy(key, s[..|s| - 1]))
  }

  lemma {:induction false} InsertByPermutes(key: Point2 -> real, x: Point2, s: seq<Point2>)
    ensures multiset(InsertBy(key, x, s)) == multiset(s) + multiset{x}
  {
    if s != [] && key(s[0]) <= key(x) {
      InsertByPermutes(key, x, s[1..]);
      assert s == [s[0]] + s[1..];
    }
  }

  lemma {:induction false} InsertBySorted(key: Point2 -> real, x: Point2, s: seq<Point2>)
    requires SortedBy(key, s)
    ensures SortedBy(key, InsertBy(key, x, s))
  {
    if s != [] && key(s[0]) <= key(x) {
      var rest := InsertBy(key, x, s[1..]);
      InsertBySorted(key, x, s[1..]);
      InsertByPermutes(key, x, s[1..]);
      var r := [s[0]] + rest;
      forall j | 0 < j < |r| ensures key(r[0]) <= key(r[j]) {
        assert r[j] in multiset(rest);
        if r[j] != x {
          assert r[j] in multiset(s[1..]);
          var m :| 0 <= m < |s[1..]| && s[1..][m] == r[j];
          assert s[m + 1] == r[j];
        }
      }
      assert SortedBy(key, r);
    }
  }

  /** `SortBy` returns its input reordered, with keys non-decreasing. */
  lemma {:induction false} SortByFacts(key: Point2 -> real, s: seq<Point2>)
    ensures multiset(SortBy(key, s)) == multiset(s)
    ensures SortedBy(key, SortBy(key, s))
    decreases |s|
  {
    if s != [] {
      var init := s[..|s| - 1];
      SortByFacts(key, init);
      InsertByPermutes(key, s[|s| - 1], SortBy(key, init));
      InsertBySorted(key, s[|s| - 1], SortBy(key, init));
      assert s == init + [s[|s| - 1]];
    }
  }

  /** A list whose first element has the least key keeps that element first. */
  lemma {:induction false} SortKeepsLeastFirst(key: Point2 -> real, s: seq<Point2>)
    requires |s| > 0
    requires forall k :: 0 <= k < |s| ==> key(s[0]) <= key(s[k])
    ensures SortBy(key, s)[0] == s[0]
    decreases |s|
  {
    if |s| > 1 {
      var init := s[..|s| - 1];
      SortKeepsLeastFirst(key, init);
    }
  }

  /** The cut points of an edge ordered by distance from the point o. */
  function SortByDist(o: Point2, s: seq<Point2>): seq<Point2> {
    SortBy(p => DistSq(o, p), s)
  }

  // ---------------------------------------------------------------------
  // Sub-edges

  /** The edges between consecutive points of a list. */
  function Chain(pts: seq<Point2>): (es: seq<Edge>)
    requires |pts| >= 1
  {
    seq(|pts| - 1, k requires 0 <= k < |pts| - 1 => Edge(pts[k], pts[k + 1]))
  }

  /** The sub-edges edge i is cut into. */
  function SubEdges(edges: seq<Edge>, i: nat): seq<Edge>
    requires i < |edges|
  {
    SplitPointsFacts(edges, i);
    Chain(SortByDist(edges[i].a, SplitPoints(edges, i)))
  }

  /** The output after the outer loop has processed the first n edges. */
  function SplitUpTo(edges: seq<Edge>, n: nat): seq<Edge>
    requires n <= |edges|
  {
    if n == 0 then [] else SplitUpTo(edges, n - 1) + SubEdges(edges, n - 1)
  }

  function SplitAll(edges: seq<Edge>): seq<Edge> {
    SplitUpTo(edges, |edges|)
  }

  /** Edge i yields |cut points| - 1 >= 1 sub-edges; the first starts at the
      edge's start; each ends where the next begins; and every sub-edge
      endpoint lies on the parent's supporting line, inside its widened box. */
  lemma SubEdgesFacts(edges: seq<Edge>, i: nat)
    requires i < |edges|
    ensures var subs := SubEdges(edges, i);
      |subs| == |SplitPoints(edges, i)| - 1 && |subs| >= 1 &&
      subs[0].a == edges[i].a &&
      (forall k :: 0 <= k < |subs| - 1 ==> subs[k].b == subs[k + 1].a) &&
      (forall k :: 0 <= k < |subs| ==>
         OnLine(LineThrough(edges[i].a, edges[i].b), subs[k].a) &&
         OnLine(LineThrough(edges[i].a, edges[i].b), subs[k].b) &&
         IsBetween(edges[i].a, edges[i].b, subs[k].a) &&
         IsBetween(edges[i].a, edges[i].b, subs[k].b))
  {
    var e := edges[i];
    var pts := SplitPoints(edges, i);
    SplitPointsFacts(edges, i);
    var key := p => DistSq(e.a, p);
    var sorted := SortBy(key, pts);
    assert key(pts[0]) == 0.0;
    SortKeepsLeastFirst(key, pts);
    SortByFacts(key, pts);
    var subs := SubEdges(edges, i);
    forall k | 0 <= k < |subs|
      ensures OnLine(LineThrough(e.a, e.b), subs[k].a) && OnLine(LineThrough(e.a, e.b), subs[k].b)
      ensures IsBetween(e.a, e.b, subs[k].a) && IsBetween(e.a, e.b, subs[k].b)
    {
      assert sorted[k] in multiset(pts) && sorted[k + 1] in multiset(pts);
      SplitPointsOnParent(edges, i, sorted[k]);
      SplitPointsOnParent(edges, i, sorted[k + 1]);
    }
  }

  /** The number of sub-edges the first n edges yield together. */
  function SubEdgeCount(edges: seq<Edge>, n: nat): int
    requires n <= |edges|
  {
    if n == 0 then 0 else SubEdgeCount(edges, n - 1) + |SplitPoints(edges, n - 1)| - 1
  }

  /** The output length is the sum of the per-edge counts, so at least one
      sub-edge per input edge. */
  lemma {:induction false} SplitUpToLength(edges: seq<Edge>, n: nat)
    requires n <= |edges|
    ensures |SplitUpTo(edges, n)| == SubEdgeCount(edges, n) >= n
  {
    if n > 0 {
      SplitUpToLength(edges, n - 1);
      SubEdgesFacts(edges, n - 1);
    }
  }

  /** The inner loop of `SplitEdgesAtIntersections`: edge i's endpoints,
      then its crossing with every other edge in list order, each new point
      once. */
  method CollectCutPoints(edges: seq<Edge>, i: nat) returns (splitPoints: seq<Point2>)
    requires i < |edges|
    ensures splitPoints == SplitPoints(edges, i) && |splitPoints| >= 2
  {
    var e1 := edges[i];
    splitPoints := [e1.a, e1.b];
    for j := 0 to |edges|
      invariant splitPoints == CutPoints(e1, Crossings(edges, i), j)
    {
      if i == j {
        continue;
      }
      var e2 := edges[j];
      var hit := LineSegmentsIntersect(e1.a, e1.b, e2.a, e2.b);
      if hit.Some? && hit.value !in splitPoints {
        splitPoints := splitPoints + [hit.value];
      }
    }
    CutPointsStart(e1, Crossings(edges, i), |edges|);
  }

  /** The last loop of `SplitEdgesAtIntersections`: an edge between each
      two consecutive ordered points, appended to the output. */
  method AppendChain(result: seq<Edge>, sorted: seq<Point2>) returns (r: seq<Edge>)
    requires |sorted| >= 1
    ensures r == result + Chain(sorted)
  {
    r := result;
    for k := 0 to |sorted| - 1
      invariant r == result + Chain(sorted)[..k]
    {
      assert Chain(sorted)[..k + 1] == Chain(sorted)[..k] + [Edge(sorted[k], sorted[k + 1])];
      r := r + [Edge(sorted[k], sorted[k + 1])];
    }
    assert Chain(sorted)[..|sorted| - 1] == Chain(sorted);
  }

  /** The nested loops of `WallGeometryProcessor.SplitEdgesAtIntersections`:
      for each edge, collect its cut points against every other edge, order
      them, and append the sub-edges. */
  method SplitEdgesAtIntersections(edges: seq<Edge>) returns (result: seq<Edge>)
    ensures result == SplitAll(edges)
  {
    result := [];
    for i := 0 to |edges|
      invariant result == SplitUpTo(edges, i)
    {
      var splitPoints := CollectCutPoints(edges, i);
      var sorted := SortByDist(edges[i].a, splitPoints);
      result := AppendChain(result, sorted);
    }
  }
}
