// Step 3 of the wall pipeline: closed loops are walked out of the split
// edges. Edges are grouped by their start point; a set of visited directed
// steps (from, to) is kept across all walks. Each edge whose step has not been
// visited in either direction seeds a walk that repeatedly takes the first
// outgoing edge whose step is unvisited and that does not lead straight back
// to the previous point. A walk that comes back to its seed's start point is
// a loop; one that runs out of edges is dropped.

module WallLoops {
  import opened Geometry

  /** A directed step between two points. */
  type Step = (Point2, Point2)

  /** The directed steps the edges provide. */
  function Steps(edges: seq<Edge>): set<Step> {
    set e | e in edges :: (e.a, e.b)
  }

  /** The edges that start at p, in list order: one group of the grouping by
      start point. */
  function Outgoing(edges: seq<Edge>, p: Point2): (r: seq<Edge>)
    ensures forall e :: e in r <==> e in edges && e.a == p
  {
    if edges == [] then []
    else (if edges[0].a == p then [edges[0]] else []) + Outgoing(edges[1..], p)
  }

  /** The start-point dictionary: a key for every point some edge starts at,
      holding the edges that start there. */
  function GroupByStart(edges: seq<Edge>): (d: map<Point2, seq<Edge>>)
    ensures forall e :: e in edges ==> e.a in d
    ensures forall p :: p in d ==> |d[p]| > 0 && forall e :: e in d[p] <==> e in edges && e.a == p
  {
    var starts := set e | e in edges :: e.a;
    assert forall p :: p in starts ==> exists e :: e in edges && e.a == p && e in Outgoing(edges, p);
    map p | p in starts :: Outgoing(edges, p)
  }

  /** An outgoing edge the walk may take from `current`, having arrived from
      `prev`: its step is unvisited and it does not lead back to `prev`. */
  predicate Usable(visited: set<Step>, current: Point2, prev: Point2, e: Edge) {
    (current, e.b) !in visited && e.b != prev
  }

  /** The outgoing edges the walk may take, in dictionary order. */
  function Candidates(es: seq<Edge>, visited: set<Step>, current: Point2, prev: Point2): (r: seq<Edge>)
    ensures forall e :: e in r <==> e in es && Usable(visited, current, prev, e)
    ensures |r| > 0 ==> exists k :: (0 <= k < |es| && es[k] == r[0] &&
      forall m :: 0 <= m < k ==> !Usable(visited, current, prev, es[m]))
  {
    if es == [] then []
    else
      var rest := Candidates(es[1..], visited, current, prev);
      if Usable(visited, current, prev, es[0]) then [es[0]] + rest
      else
        assert |rest| > 0 ==> exists k :: (1 <= k < |es| && es[k] == rest[0] &&
          forall m :: 0 <= m < k ==> !Usable(visited, current, prev, es[m])) by {
          if |rest| > 0 {
            var k :| 0 <= k < |es[1..]| && es[1..][k] == rest[0] &&
              forall m :: 0 <= m < k ==> !Usable(visited, current, prev, es[1..][m]);
            assert es[k + 1] == rest[0];
            forall m | 0 <= m < k + 1 ensures !Usable(visited, current, prev, es[m]) {
              if m > 0 { assert es[m] == es[1..][m - 1]; }
            }
          }
        }
        rest
  }

  /** The step from point k of a loop to point k + 1. */
  function StepAt(l: seq<Point2>, k: int): Step
    requires 0 <= k < |l| - 1
  {
    (l[k], l[k + 1])
  }

  /** The steps a loop's walk took: from each point to the next. */
  function WalkedSteps(l: seq<Point2>): set<Step> {
    set k | 0 <= k < |l| - 1 :: StepAt(l, k)
  }

  /** The step from a loop's last point back to its first. */
  function ClosingStep(l: seq<Point2>): Step
    requires |l| > 0
  {
    (l[|l| - 1], l[0])
  }

  /** Every step of the loop, the closing one included, is an edge. */
  predicate IsClosedWalk(l: seq<Point2>, edges: seq<Edge>) {
    |l| > 0 && WalkedSteps(l) <= Steps(edges) && ClosingStep(l) in Steps(edges)
  }

  /** No step leads straight back to the point before. */
  predicate NoBacktrack(l: seq<Point2>) {
    (forall k :: 0 <= k < |l| - 2 ==> l[k + 2] != l[k]) &&
    (|l| >= 2 ==> l[0] != l[|l| - 2])
  }

  /** The loop's walked steps are pairwise distinct. */
  predicate WalkedStepsDistinct(l: seq<Point2>) {
    forall k1, k2 :: 0 <= k1 < k2 < |l| - 1 ==> StepAt(l, k1) != StepAt(l, k2)
  }

  /** The loop's steps, the closing one included, are pairwise distinct. */
  predicate DistinctSteps(l: seq<Point2>) {
    |l| > 0 && WalkedStepsDistinct(l) && ClosingStep(l) !in WalkedSteps(l)
  }

  /** Loop `later` uses no step that loop `earlier`'s walk took, and its seed
      step was not walked by `earlier` in either direction. */
  predicate Disjoint(earlier: seq<Point2>, later: seq<Point2>) {
    |later| >= 2 &&
    WalkedSteps(later) !! WalkedSteps(earlier) &&
    ClosingStep(later) !in WalkedSteps(earlier) &&
    (later[1], later[0]) !in WalkedSteps(earlier)
  }

  /** A loop as the walk accepts it. */
  predicate IsLoop(l: seq<Point2>, edges: seq<Edge>) {
    |l| >= 3 && IsClosedWalk(l, edges) && NoBacktrack(l) && DistinctSteps(l)
  }

  lemma WalkedStepsExtend(l: seq<Point2>, p: Point2)
    requires |l| > 0
    ensures WalkedSteps(l + [p]) == WalkedSteps(l) + {(l[|l| - 1], p)}
  {
    var l' := l + [p];
    forall s | s in WalkedSteps(l') ensures s in WalkedSteps(l) + {(l[|l| - 1], p)} {
      var k :| 0 <= k < |l'| - 1 && s == StepAt(l', k);
      if k < |l| - 1 { assert s == StepAt(l, k); }
    }
    forall s | s in WalkedSteps(l) ensures s in WalkedSteps(l') {
      var k :| 0 <= k < |l| - 1 && s == StepAt(l, k);
      assert s == StepAt(l', k);
    }
    assert StepAt(l', |l| - 1) in WalkedSteps(l');
  }

  /** Appending a point whose step is new keeps the walked steps distinct. */
  lemma WalkedStepsDistinctExtend(l: seq<Point2>, p: Point2)
    requires |l| > 0 && WalkedStepsDistinct(l) && (l[|l| - 1], p) !in WalkedSteps(l)
    ensures WalkedStepsDistinct(l + [p])
  {
    var l' := l + [p];
    forall k1, k2 | 0 <= k1 < k2 < |l'| - 1 ensures StepAt(l', k1) != StepAt(l', k2) {
      assert StepAt(l', k1) == StepAt(l, k1);
      if k2 < |l| - 1 {
        assert StepAt(l', k2) == StepAt(l, k2);
      } else {
        assert StepAt(l, k1) in WalkedSteps(l);
      }
    }
  }

  /** What holds at the head of each round of a walk from `seed`: the points
      reached so far are `loop`, the walk is about to step from `prev` to
      `current` along an edge, and the steps walked so far are new, distinct,
      free of back-steps and exactly what was added to the visited set. */
  predicate WalkInv(all: set<Step>, seed: Edge, visited0: set<Step>,
                    loop: seq<Point2>, prev: Point2, current: Point2, visited: set<Step>) {
    |loop| >= 1 && loop[0] == seed.a && prev == loop[|loop| - 1] &&
    (|loop| >= 2 ==> loop[1] == seed.b) &&
    (|loop| == 1 ==> current == seed.b) &&
    visited == visited0 + WalkedSteps(loop) && WalkedSteps(loop) !! visited0 &&
    visited <= all &&
    (prev, current) in all && (prev, current) !in visited &&
    WalkedStepsDistinct(loop) &&
    (forall k :: 0 <= k < |loop| - 2 ==> loop[k + 2] != loop[k]) &&
    (|loop| >= 2 ==> current != loop[|loop| - 2])
  }

  /** What the walk promises once it stops: the points it reached, the
      visited set grown by exactly its steps, and, when it came back to the
      seed's start, a closed walk whose closing step is still unvisited. */
  predicate WalkDone(all: set<Step>, seed: Edge, visited0: set<Step>,
                     loop: seq<Point2>, current: Point2, visited: set<Step>) {
    |loop| >= 1 && loop[0] == seed.a && (|loop| >= 2 ==> loop[1] == seed.b) &&
    visited == visited0 + WalkedSteps(loop) && WalkedSteps(loop) !! visited0 &&
    visited <= all && WalkedStepsDistinct(loop)
  }

  /** Arriving at `current`: the point is recorded and the step to it marked
      visited. */
  lemma Arrive(all: set<Step>, seed: Edge, visited0: set<Step>,
               loop: seq<Point2>, prev: Point2, current: Point2, visited: set<Step>)
    requires WalkInv(all, seed, visited0, loop, prev, current, visited)
    ensures WalkDone(all, seed, visited0, loop + [current], current, visited + {(prev, current)})
    ensures WalkedSteps(loop + [current]) == WalkedSteps(loop) + {(prev, current)}
  {
    WalkedStepsExtend(loop, current);
    WalkedStepsDistinctExtend(loop, current);
    var l' := loop + [current];
    assert l'[0] == loop[0];
    if |loop| >= 2 { assert l'[1] == loop[1]; }
  }

  /** Moving on from `current` to `next` along a usable edge keeps the walk's
      invariant. */
  lemma Advance(all: set<Step>, seed: Edge, visited0: set<Step>,
                loop: seq<Point2>, prev: Point2, current: Point2, visited: set<Step>, next: Point2)
    requires WalkInv(all, seed, visited0, loop, prev, current, visited)
    requires (current, next) in all && (current, next) !in visited + {(prev, current)} && next != prev
    ensures WalkInv(all, seed, visited0, loop + [current], current, next, visited + {(prev, current)})
  {
    Arrive(all, seed, visited0, loop, prev, current, visited);
    var l' := loop + [current];
    forall k | 0 <= k < |l'| - 2 ensures l'[k + 2] != l'[k] {
      if k < |loop| - 2 {
        assert l'[k + 2] == loop[k + 2] && l'[k] == loop[k];
      } else {
        assert l'[k] == loop[|loop| - 2];
      }
    }
  }

  /** Coming back to the seed's start closes the walk. */
  lemma Close(edges: seq<Edge>, seed: Edge, visited0: set<Step>,
              loop: seq<Point2>, prev: Point2, current: Point2, visited: set<Step>)
    requires WalkInv(Steps(edges), seed, visited0, loop, prev, current, visited)
    requires current == seed.a
    ensures IsClosedWalk(loop, edges) && NoBacktrack(loop) && DistinctSteps(loop)
    ensures ClosingStep(loop) !in visited
  {
    assert ClosingStep(loop) == (prev, current);
  }

  /** Where a walk stops: the points it recorded, the point it stopped at and
      the visited set after it. */
  datatype WalkResult = WalkResult(points: seq<Point2>, last: Point2, visited: set<Step>)

  /** The walk from `current`, having come from `prev`, with `loop` recorded
      so far: back at the seed's start it stops; otherwise it records
      `current`, marks the step to it visited, and moves on along the first
      usable edge of `current`'s group, stopping when `current` has no group
      or no usable edge. */
  function WalkOn(edges: seq<Edge>, seed: Edge, loop: seq<Point2>, prev: Point2, current: Point2,
                  visited: set<Step>): (r: WalkResult)
    requires visited <= Steps(edges)
    requires (prev, current) in Steps(edges) && (prev, current) !in visited
    ensures visited <= r.visited <= Steps(edges)
    decreases Steps(edges) - visited
  {
    if current == seed.a then WalkResult(loop, current, visited)
    else
      var loop', visited' := loop + [current], visited + {(prev, current)};
      var edgeDict := GroupByStart(edges);
      if current !in edgeDict then WalkResult(loop', current, visited')
      else
        var nextEdges := Candidates(edgeDict[current], visited', current, prev);
        if |nextEdges| == 0 then WalkResult(loop', current, visited')
        else
          assert nextEdges[0] in edgeDict[current];
          WalkOn(edges, seed, loop', current, nextEdges[0].b, visited')
  }

  /** The walk seeded by edge `seed`: it starts at the seed's end, having come
      from its start. */
  function WalkFrom(edges: seq<Edge>, seed: Edge, visited0: set<Step>): WalkResult
    requires seed in edges && visited0 <= Steps(edges) && (seed.a, seed.b) !in visited0
  {
    WalkOn(edges, seed, [seed.a], seed.a, seed.b, visited0)
  }

  /** A walk in progress keeps its invariant to the end: it stops with the
      points it reached and exactly their steps added to the visited set, and
      if it stopped at the seed's start, those points form a closed walk along
      the edges that never steps straight back, never repeats a step, and
      whose closing step is still unvisited. */
  lemma {:induction false} WalkOnFacts(edges: seq<Edge>, seed: Edge, visited0: set<Step>,
                                       loop: seq<Point2>, prev: Point2, current: Point2, visited: set<Step>)
    requires WalkInv(Steps(edges), seed, visited0, loop, prev, current, visited)
    ensures var r := WalkOn(edges, seed, loop, prev, current, visited);
      WalkDone(Steps(edges), seed, visited0, r.points, r.last, r.visited) &&
      (r.last == seed.a ==>
        IsClosedWalk(r.points, edges) && NoBacktrack(r.points) && DistinctSteps(r.points) &&
        ClosingStep(r.points) !in r.visited)
    decreases Steps(edges) - visited
  {
    if current == seed.a {
      Close(edges, seed, visited0, loop, prev, current, visited);
    } else {
      Arrive(Steps(edges), seed, visited0, loop, prev, current, visited);
      var visited' := visited + {(prev, current)};
      var edgeDict := GroupByStart(edges);
      if current in edgeDict {
        var nextEdges := Candidates(edgeDict[current], visited', current, prev);
        if |nextEdges| > 0 {
          assert nextEdges[0] in edgeDict[current];
          Advance(Steps(edges), seed, visited0, loop, prev, current, visited, nextEdges[0].b);
          WalkOnFacts(edges, seed, visited0, loop + [current], current, nextEdges[0].b, visited');
        }
      }
    }
  }

  /** A seed's walk adds exactly its walked steps to the visited set; when it
      comes back to the seed's start it is a closed walk along the edges with
      no back-step and no repeated step, whose closing step stays unvisited. */
  lemma WalkFromFacts(edges: seq<Edge>, seed: Edge, visited0: set<Step>)
    requires seed in edges && visited0 <= Steps(edges) && (seed.a, seed.b) !in visited0
    ensures var r := WalkFrom(edges, seed, visited0);
      WalkDone(Steps(edges), seed, visited0, r.points, r.last, r.visited) &&
      (r.last == seed.a ==>
        IsClosedWalk(r.points, edges) && NoBacktrack(r.points) && DistinctSteps(r.points) &&
        ClosingStep(r.points) !in r.visited)
  {
    assert WalkedSteps([seed.a]) == {};
    WalkOnFacts(edges, seed, visited0, [seed.a], seed.a, seed.b, visited0);
  }

  /** The walk from one seed edge, the inner loop of `FindClosedLoops` in
      `WallGeometryProcessor`: it records each point reached, marks the step
      to it visited, and moves on along the head of the usable outgoing edges,
      until it is back at the seed's start or no usable edge is left. */
  method Walk(edges: seq<Edge>, edgeDict: map<Point2, seq<Edge>>, seed: Edge, visited0: set<Step>)
    returns (loop: seq<Point2>, current: Point2, visited: set<Step>)
    requires edgeDict == GroupByStart(edges)
    requires seed in edges && visited0 <= Steps(edges)
    requires (seed.a, seed.b) !in visited0
    ensures WalkResult(loop, current, visited) == WalkFrom(edges, seed, visited0)
  {
    ghost var all := Steps(edges);
    visited := visited0;
    loop := [seed.a];
    current := seed.b;
    var prev := seed.a;
    while current != seed.a
      invariant visited <= all && (prev, current) in all && (prev, current) !in visited
      invariant WalkOn(edges, seed, loop, prev, current, visited) == WalkFrom(edges, seed, visited0)
      decreases all - visited
    {
      ghost var before := visited;
      loop := loop + [current];
      visited := visited + {(prev, current)};
      if current !in edgeDict {
        break;
      }
      var nextEdges := Candidates(edgeDict[current], visited, current, prev);
      if |nextEdges| == 0 {
        break;
      }
      assert nextEdges[0] in edgeDict[current];
      assert all - visited < all - before by {
        assert (prev, current) in all - before;
      }
      prev := current;
      current := nextEdges[0].b;
    }
  }

  /** The loops found from seed n on, given those found before and the steps
      visited so far: a seed whose step is visited in either direction is
      skipped; otherwise its walk is kept when it came back to the seed's
      start with at least three points. */
  function LoopsFrom(edges: seq<Edge>, n: nat, loops: seq<seq<Point2>>, visited: set<Step>): seq<seq<Point2>>
    requires n <= |edges| && visited <= Steps(edges)
    decreases |edges| - n
  {
    if n == |edges| then loops
    else
      var edge := edges[n];
      if (edge.a, edge.b) in visited || (edge.b, edge.a) in visited then
        LoopsFrom(edges, n + 1, loops, visited)
      else
        var r := WalkFrom(edges, edge, visited);
        var loops' := if |r.points| >= 3 && r.last == edge.a then loops + [r.points] else loops;
        LoopsFrom(edges, n + 1, loops', r.visited)
  }

  /** The loops the wall pipeline finds in a list of edges. */
  function ClosedLoops(edges: seq<Edge>): seq<seq<Point2>> {
    LoopsFrom(edges, 0, [], {})
  }

  /** Loops as the extraction accepts them: each is a loop of the edges and
      each shares no step with the walks of the loops before it. */
  predicate SoundLoops(edges: seq<Edge>, loops: seq<seq<Point2>>) {
    (forall l :: l in loops ==> IsLoop(l, edges)) &&
    (forall i, j :: 0 <= i < j < |loops| ==> Disjoint(loops[i], loops[j]))
  }

  /** The invariant of the outer loop: the loops accepted so far are sound
      and their walks are in the visited set. */
  predicate LoopsSoFar(edges: seq<Edge>, loops: seq<seq<Point2>>, visited: set<Step>) {
    SoundLoops(edges, loops) && (forall l :: l in loops ==> WalkedSteps(l) <= visited)
  }

  /** Accepting a loop walked from a seed whose step was unvisited in both
      directions keeps the outer invariant. */
  lemma AcceptLoop(edges: seq<Edge>, loops: seq<seq<Point2>>, seed: Edge, visited0: set<Step>,
                   loop: seq<Point2>, visited: set<Step>)
    requires LoopsSoFar(edges, loops, visited0)
    requires (seed.b, seed.a) !in visited0
    requires WalkDone(Steps(edges), seed, visited0, loop, seed.a, visited)
    requires |loop| >= 3 && IsClosedWalk(loop, edges) && NoBacktrack(loop) && DistinctSteps(loop)
    requires ClosingStep(loop) !in visited
    ensures LoopsSoFar(edges, loops + [loop], visited)
  {
    var all := loops + [loop];
    forall i, j | 0 <= i < j < |all| ensures Disjoint(all[i], all[j]) {
      if j < |loops| {
        assert all[i] == loops[i] && all[j] == loops[j];
      } else {
        assert loops[i] in loops;
      }
    }
  }

  /** Every seed from n on keeps the loops sound. */
  lemma {:induction false} LoopsFromSound(edges: seq<Edge>, n: nat, loops: seq<seq<Point2>>, visited: set<Step>)
    requires n <= |edges| && visited <= Steps(edges)
    requires LoopsSoFar(edges, loops, visited)
    ensures SoundLoops(edges, LoopsFrom(edges, n, loops, visited))
    decreases |edges| - n
  {
    if n < |edges| {
      var edge := edges[n];
      if (edge.a, edge.b) in visited || (edge.b, edge.a) in visited {
        LoopsFromSound(edges, n + 1, loops, visited);
      } else {
        var r := WalkFrom(edges, edge, visited);
        WalkFromFacts(edges, edge, visited);
        if |r.points| >= 3 && r.last == edge.a {
          AcceptLoop(edges, loops, edge, visited, r.points, r.visited);
          LoopsFromSound(edges, n + 1, loops + [r.points], r.visited);
        } else {
          assert LoopsSoFar(edges, loops, r.visited);
          LoopsFromSound(edges, n + 1, loops, r.visited);
        }
      }
    }
  }

  /** Every loop found has at least three points, starts with a step along its
      seed edge, walks only along edges and comes back to its start along an
      edge, never steps straight back and never repeats a step; and it shares
      no step with the walks of the loops found before it. */
  lemma ClosedLoopsSound(edges: seq<Edge>)
    ensures SoundLoops(edges, ClosedLoops(edges))
  {
    LoopsFromSound(edges, 0, [], {});
  }

  /** The loop extraction of `WallGeometryProcessor`: one walk per seed edge
      whose step is unvisited in both directions, keeping each walk that comes
      back to its seed's start with at least three points. */
  method FindClosedLoops(edges: seq<Edge>) returns (loops: seq<seq<Point2>>)
    ensures loops == ClosedLoops(edges)
    ensures SoundLoops(edges, loops)
  {
    loops := [];
    var edgeDict := GroupByStart(edges);
    var visited: set<Step> := {};
    for n := 0 to |edges|
      invariant visited <= Steps(edges)
      invariant LoopsFrom(edges, n, loops, visited) == ClosedLoops(edges)
    {
      var edge := edges[n];
      if (edge.a, edge.b) in visited || (edge.b, edge.a) in visited {
        continue;
      }
      var loop, current;
      loop, current, visited := Walk(edges, edgeDict, edge, visited);
      if |loop| >= 3 && current == edge.a {
        loops := loops + [loop];
      }
    }
    ClosedLoopsSound(edges);
  }
}
