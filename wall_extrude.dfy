// Step 4 of the wall pipeline: a closed loop of n points becomes a prism
// mesh. The loop is laid on the ground (vertices 0 .. n-1) and copied `height`
// higher (vertices n .. 2n-1). The base is covered by a fan of n-2 triangles
// from point 0, the top by the same fan with reversed winding, and every loop
// edge i -> i+1 (mod n) by a quad of two triangles. That gives
// (n-2) + (n-2) + 2n = 4n - 4 triangles.

module WallExtrude {
  import opened Geometry

  /** One triangle, as three vertex indices in winding order. */
  datatype Tri = Tri(a: int, b: int, c: int)

  /** The index buffer of a triangle list: three indices per triangle, in order. */
  function Flatten(ts: seq<Tri>): (r: seq<int>)
    ensures |r| == 3 * |ts|
  {
    if ts == [] then []
    else
      var t := ts[|ts| - 1];
      Flatten(ts[..|ts| - 1]) + [t.a, t.b, t.c]
  }

  /** The triangle with index k of a flattened list sits at 3k .. 3k+2. */
  lemma {:induction false} FlattenAt(ts: seq<Tri>, k: nat)
    requires k < |ts|
    ensures Flatten(ts)[3 * k] == ts[k].a
    ensures Flatten(ts)[3 * k + 1] == ts[k].b
    ensures Flatten(ts)[3 * k + 2] == ts[k].c
    decreases |ts|
  {
    var init := ts[..|ts| - 1];
    if k < |ts| - 1 {
      FlattenAt(init, k);
      assert init[k] == ts[k];
    }
  }

  /** Appending one triangle appends its three indices. */
  lemma FlattenSnoc(ts: seq<Tri>, t: Tri)
    ensures Flatten(ts + [t]) == Flatten(ts) + [t.a, t.b, t.c]
  {
    assert (ts + [t])[..|ts|] == ts;
  }

  /** Every index of the flattened list belongs to one of the triangles. */
  lemma FlattenIndices(ts: seq<Tri>, k: nat)
    requires k < |Flatten(ts)|
    ensures Flatten(ts)[k] in {ts[k / 3].a, ts[k / 3].b, ts[k / 3].c}
  {
    FlattenAt(ts, k / 3);
  }

  /** The triangles all of whose indices lie in [0, bound). */
  predicate InRange(ts: seq<Tri>, bound: int) {
    forall k :: 0 <= k < |ts| ==>
      0 <= ts[k].a < bound && 0 <= ts[k].b < bound && 0 <= ts[k].c < bound
  }

  /** The fan covering the base: triangle i joins point 0 to edge i+1 -> i+2. */
  function BaseCap(n: int): seq<Tri>
    requires n >= 2
  {
    seq(n - 2, i => Tri(0, i + 1, i + 2))
  }

  /** The fan covering the top, over the copies n .. 2n-1, wound the other way. */
  function TopCap(n: int): seq<Tri>
    requires n >= 2
  {
    seq(n - 2, i => Tri(n, n + i + 2, n + i + 1))
  }

  /** The loop point after point i, wrapping round to 0. */
  function Next(n: int, i: int): int
    requires n > 0
  {
    (i + 1) % n
  }

  /** The two triangles covering the wall face over loop edge i -> Next(n, i):
      bottom i, top i, top next, then bottom i, top next, bottom next. */
  function Quad(n: int, i: int): seq<Tri>
    requires n > 0
  {
    var next := Next(n, i);
    [Tri(i, i + n, next + n), Tri(i, next + n, next)]
  }

  /** The quads over the first m loop edges. */
  function Quads(n: int, m: nat): (r: seq<Tri>)
    requires n > 0
    ensures |r| == 2 * m
  {
    if m == 0 then [] else Quads(n, m - 1) + Quad(n, m - 1)
  }

  /** All triangles of the prism: base fan, top fan, side quads. */
  function PrismTris(n: int): seq<Tri>
    requires n >= 2
  {
    BaseCap(n) + TopCap(n) + Quads(n, n)
  }

  /** The prism's vertices: the loop on the ground, then the loop raised by h. */
  function PrismVertices(loop: seq<Point2>, h: real): seq<Vec3> {
    seq(2 * |loop|, k requires 0 <= k < 2 * |loop| =>
      if k < |loop| then Ground(loop[k]) else Add(Ground(loop[k - |loop|]), Up(h)))
  }

  /** Triangle 2i and 2i+1 of the side quads cover loop edge i. */
  lemma {:induction false} QuadsAt(n: int, m: nat, i: nat)
    requires n > 0 && i < m
    ensures Quads(n, m)[2 * i] == Tri(i, i + n, Next(n, i) + n)
    ensures Quads(n, m)[2 * i + 1] == Tri(i, Next(n, i) + n, Next(n, i))
  {
    if i < m - 1 {
      QuadsAt(n, m - 1, i);
    }
  }

  /** The prism has 4n - 4 triangles, so 3(4n - 4) indices. */
  lemma PrismTriangleCount(n: int)
    requires n >= 2
    ensures |PrismTris(n)| == 4 * n - 4
    ensures |Flatten(PrismTris(n))| == 3 * (4 * n - 4)
  {
  }

  /** The prism's triangles only name its 2n vertices. */
  lemma {:induction false} PrismTrisInRange(n: int)
    requires n >= 2
    ensures InRange(PrismTris(n), 2 * n)
  {
    var ts := PrismTris(n);
    forall k | 0 <= k < |ts|
      ensures 0 <= ts[k].a < 2 * n && 0 <= ts[k].b < 2 * n && 0 <= ts[k].c < 2 * n
    {
      if k < 2 * (n - 2) {
      } else {
        var q := k - 2 * (n - 2);
        assert ts[k] == Quads(n, n)[q];
        QuadsAt(n, n, q / 2);
        assert q == 2 * (q / 2) || q == 2 * (q / 2) + 1;
      }
    }
  }

  /** Triangles whose indices are in range flatten to indices in range. */
  lemma FlattenInRange(ts: seq<Tri>, bound: int)
    requires InRange(ts, bound)
    ensures forall k :: 0 <= k < |Flatten(ts)| ==> 0 <= Flatten(ts)[k] < bound
  {
    forall k | 0 <= k < |Flatten(ts)| ensures 0 <= Flatten(ts)[k] < bound {
      FlattenIndices(ts, k);
    }
  }

  /** The extruded mesh is well formed: every index names one of its vertices. */
  lemma PrismMeshValid(loop: seq<Point2>, h: real)
    requires |loop| >= 2
    ensures ValidMesh(Mesh(PrismVertices(loop, h), Flatten(PrismTris(|loop|))))
  {
    var tris := PrismTris(|loop|);
    PrismTrisInRange(|loop|);
    FlattenInRange(tris, 2 * |loop|);
    var m := Mesh(PrismVertices(loop, h), Flatten(tris));
    assert |m.vertices| == 2 * |loop|;
    assert |m.triangles| == 3 * |tris|;
  }

  /** Vertex i is loop point i on the ground, and vertex i + n is the same
      point raised by h. */
  lemma PrismVerticesShape(loop: seq<Point2>, h: real, i: nat)
    requires i < |loop|
    ensures |PrismVertices(loop, h)| == 2 * |loop|
    ensures PrismVertices(loop, h)[i] == Ground(loop[i]) && PrismVertices(loop, h)[i].y == 0.0
    ensures PrismVertices(loop, h)[i + |loop|] == Add(PrismVertices(loop, h)[i], Up(h))
  {
  }

  /** Raising all three corners by the same amount leaves the normal as is. */
  lemma NormalYRaised(u: Vec3, v: Vec3, w: Vec3, h: real)
    ensures NormalY(Add(u, Up(h)), Add(v, Up(h)), Add(w, Up(h))) == NormalY(u, v, w)
  {
    assert Sub(Add(v, Up(h)), Add(u, Up(h))) == Sub(v, u);
    assert Sub(Add(w, Up(h)), Add(u, Up(h))) == Sub(w, u);
  }

  /** Swapping two corners turns the face over. */
  lemma NormalYSwap(u: Vec3, v: Vec3, w: Vec3)
    ensures NormalY(u, w, v) == -NormalY(u, v, w)
  {
  }

  /** Top triangle i is base triangle i raised to the top and wound the other
      way, so its face looks the opposite way: the top cap faces up exactly
      where the base faces down. */
  lemma TopCapFlipsBase(loop: seq<Point2>, h: real, i: nat)
    requires |loop| >= 2 && i < |loop| - 2
    ensures var v, n := PrismVertices(loop, h), |loop|;
      var b, t := BaseCap(n)[i], TopCap(n)[i];
      t == Tri(b.a + n, b.c + n, b.b + n) &&
      NormalY(v[t.a], v[t.b], v[t.c]) == -NormalY(v[b.a], v[b.b], v[b.c])
  {
    var v, n := PrismVertices(loop, h), |loop|;
    var b := BaseCap(n)[i];
    PrismVerticesShape(loop, h, 0);
    PrismVerticesShape(loop, h, i + 1);
    PrismVerticesShape(loop, h, i + 2);
    NormalYRaised(v[0], v[i + 2], v[i + 1], h);
    NormalYSwap(v[0], v[i + 1], v[i + 2]);
  }

  /** The two triangles over loop edge i join the edge's ground points to
      their raised copies, and both are vertical: their normals have no
      vertical component. */
  lemma SideQuadIsVertical(loop: seq<Point2>, h: real, i: nat)
    requires |loop| >= 2 && i < |loop|
    ensures var v, n := PrismVertices(loop, h), |loop|;
      var s1, s2 := Quads(n, n)[2 * i], Quads(n, n)[2 * i + 1];
      var next := Next(n, i);
      s1 == Tri(i, i + n, next + n) && s2 == Tri(i, next + n, next) &&
      v[i] == Ground(loop[i]) && v[next] == Ground(loop[next]) &&
      v[i + n] == Add(v[i], Up(h)) && v[next + n] == Add(v[next], Up(h)) &&
      NormalY(v[s1.a], v[s1.b], v[s1.c]) == 0.0 && NormalY(v[s2.a], v[s2.b], v[s2.c]) == 0.0
  {
    var n := |loop|;
    QuadsAt(n, n, i);
    PrismVerticesShape(loop, h, i);
    PrismVerticesShape(loop, h, Next(n, i));
  }

  /** One more fan triangle appends 0, i+1, i+2. */
  lemma BaseCapStep(n: int, i: nat)
    requires n >= 2 && i < n - 2
    ensures Flatten(BaseCap(n)[..i + 1]) == Flatten(BaseCap(n)[..i]) + [0, i + 1, i + 2]
  {
    assert BaseCap(n)[..i + 1] == BaseCap(n)[..i] + [Tri(0, i + 1, i + 2)];
    FlattenSnoc(BaseCap(n)[..i], Tri(0, i + 1, i + 2));
  }

  /** Flattening distributes over concatenation. */
  lemma {:induction false} FlattenAppend(s: seq<Tri>, t: seq<Tri>)
    ensures Flatten(s + t) == Flatten(s) + Flatten(t)
    decreases |t|
  {
    if t == [] {
      assert s + t == s;
    } else {
      var t' := t[..|t| - 1];
      var x := t[|t| - 1];
      assert s + t == (s + t') + [x];
      assert t == t' + [x];
      FlattenSnoc(s + t', x);
      FlattenSnoc(t', x);
      FlattenAppend(s, t');
    }
  }

  /** One more top triangle appends n, n+i+2, n+i+1. */
  lemma TopCapStep(n: int, i: nat)
    requires n >= 2 && i < n - 2
    ensures Flatten(TopCap(n)[..i + 1]) == Flatten(TopCap(n)[..i]) + [n, n + i + 2, n + i + 1]
  {
    assert TopCap(n)[..i + 1] == TopCap(n)[..i] + [TopCap(n)[i]];
    FlattenSnoc(TopCap(n)[..i], TopCap(n)[i]);
  }

  /** One more side quad appends its six indices. */
  lemma QuadsStep(n: int, i: nat)
    requires n >= 2
    ensures var next := Next(n, i);
      Flatten(Quads(n, i + 1)) == Flatten(Quads(n, i)) + [i, i + n, next + n, i, next + n, next]
  {
    var next := Next(n, i);
    FlattenAppend(Quads(n, i), Quad(n, i));
    assert Quad(n, i) == [Tri(i, i + n, next + n)] + [Tri(i, next + n, next)];
    FlattenSnoc([Tri(i, i + n, next + n)], Tri(i, next + n, next));
    FlattenSnoc([], Tri(i, i + n, next + n));
  }

  /** The prism's index buffer is the base fan's, then the top fan's, then
      the side quads'. */
  lemma PrismIndicesSplit(n: int)
    requires n >= 2
    ensures Flatten(PrismTris(n)) == Flatten(BaseCap(n)) + Flatten(TopCap(n)) + Flatten(Quads(n, n))
  {
    FlattenAppend(BaseCap(n) + TopCap(n), Quads(n, n));
    FlattenAppend(BaseCap(n), TopCap(n));
  }

  /** The first loop of the extrusion: the base fan written into an array of
      (n-2)*3 indices. */
  method FanIndices(n: int) returns (tris: array<int>)
    requires n >= 2
    ensures fresh(tris)
    ensures tris[..] == Flatten(BaseCap(n))
  {
    tris := new int[(n - 2) * 3];
    for i := 0 to n - 2
      invariant tris[..3 * i] == Flatten(BaseCap(n)[..i])
    {
      tris[i * 3] := 0;
      tris[i * 3 + 1] := i + 1;
      tris[i * 3 + 2] := i + 2;
      BaseCapStep(n, i);
      assert tris[..3 * (i + 1)] == tris[..3 * i] + [0, i + 1, i + 2];
    }
    assert tris[..] == tris[..3 * (n - 2)];
    assert BaseCap(n)[..n - 2] == BaseCap(n);
  }

  /** The second loop: every ground vertex and its copy raised by `height`,
      the copies n places after the originals. */
  method RaisedVertices(baseVerts: seq<Vec3>, height: real) returns (fullVerts: array<Vec3>)
    ensures fresh(fullVerts)
    ensures fullVerts.Length == 2 * |baseVerts|
    ensures forall k :: 0 <= k < |baseVerts| ==>
      fullVerts[k] == baseVerts[k] && fullVerts[k + |baseVerts|] == Add(baseVerts[k], Up(height))
  {
    var n := |baseVerts|;
    fullVerts := new Vec3[n * 2];
    for i := 0 to n
      invariant forall k :: 0 <= k < i ==>
        fullVerts[k] == baseVerts[k] && fullVerts[k + n] == Add(baseVerts[k], Up(height))
    {
      fullVerts[i] := baseVerts[i];
      fullVerts[i + n] := Add(baseVerts[i], Up(height));
    }
  }

  /** The third loop: the top fan, over the vertices from `baseOffset` on,
      appended with reversed winding. */
  method AppendTopCap(allTris: seq<int>, n: int) returns (r: seq<int>)
    requires n >= 2
    ensures r == allTris + Flatten(TopCap(n))
  {
    r := allTris;
    var baseOffset := n;
    assert TopCap(n)[..0] == [];
    for i := 0 to n - 2
      invariant r == allTris + Flatten(TopCap(n)[..i])
    {
      r := r + [baseOffset, baseOffset + i + 2, baseOffset + i + 1];
      TopCapStep(n, i);
    }
    assert TopCap(n)[..n - 2] == TopCap(n);
  }

  /** The fourth loop: the two triangles over each loop edge appended. */
  method AppendSideQuads(allTris: seq<int>, n: int) returns (r: seq<int>)
    requires n >= 2
    ensures r == allTris + Flatten(Quads(n, n))
  {
    r := allTris;
    for i := 0 to n
      invariant r == allTris + Flatten(Quads(n, i))
    {
      var next := (i + 1) % n;
      var a := i;
      var b := next;
      var c := i + n;
      var d := next + n;
      r := r + [a, c, d, a, d, b];
      QuadsStep(n, i);
    }
  }

  /** `WallGeometryProcessor.TriangulateAndExtrude`: the fan into an array of (n-2)*3 indices, the
      2n vertices into an array, then the top fan and the side quads appended
      to a growing index list. The loop needs at least two points; with fewer
      the fan array would get a negative size. */
  method TriangulateAndExtrude(loop: seq<Point2>, height: real) returns (mesh: Mesh)
    requires |loop| >= 2
    ensures mesh.vertices == PrismVertices(loop, height)
    ensures mesh.triangles == Flatten(PrismTris(|loop|))
  {
    var baseVerts := seq(|loop|, i requires 0 <= i < |loop| => Ground(loop[i]));
    var n := |baseVerts|;
    var tris := FanIndices(n);
    var fullVerts := RaisedVertices(baseVerts, height);
    assert fullVerts[..] == PrismVertices(loop, height) by {
      forall k | 0 <= k < 2 * n ensures fullVerts[k] == PrismVertices(loop, height)[k] {
        if k >= n {
          assert fullVerts[(k - n) + n] == Add(baseVerts[k - n], Up(height));
        }
      }
    }
    var allTris := tris[..];
    allTris := AppendTopCap(allTris, n);
    allTris := AppendSideQuads(allTris, n);
    PrismIndicesSplit(n);
    mesh := Mesh(fullVerts[..], allTris);
  }
}
