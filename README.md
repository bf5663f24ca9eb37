# Roomy floorplan, furniture grid and registration core in Dafny

This project models the core of Roomy, a Unity room planner:

- **Wall geometry pipeline (`WallGeometryProcessor`).** Wall rectangles from a
  floorplan annotation become a closed outline of edges. The edges are split
  where they cross. Closed loops are walked out of the split edges. Each loop of
  at least three points is extruded into a prism mesh.
- **Floorplan loader (`FloorplanLoader`).** The loader picks the wall rectangles
  and the first "area" shape out of the parsed annotation file. It builds the
  floor as one quad over the area's box.
- **Furniture occupancy grid (`FurnitureGridManager`).** The grid is a table of
  occupied cells plus a dictionary from items to their origin cells. Snapping an
  item frees its old block. It then searches outwards for the first free block
  where the physics world also has room. An item already anchored there is
  swapped to the snapped item's previous cell.
- **Registration form (`RegisterSystem`).** Three checks run in a fixed order
  before a registration request is sent.

Files:

| file | module | what it holds |
|---|---|---|
| `wrappers.dfy` | `Wrappers` | `Option` |
| `geometry.dfy` | `Geometry` | points, edges, 3D vectors, meshes, the vertical component of a face normal |
| `wall_edges.dfy` | `WallEdges` | rectangles to edges |
| `wall_split.dfy` | `WallSplit` | segment crossing, cut points, stable ordering, sub-edges |
| `wall_loops.dfy` | `WallLoops` | start-point grouping, the walk, loop extraction |
| `wall_extrude.dfy` | `WallExtrude` | fan triangulation and extrusion over arrays |
| `wall_build.dfy` | `WallBuild` | the whole wall pipeline |
| `floorplan_loader.dfy` | `FloorplanLoader` | shape selection, floor quad, the loader component |
| `furniture_grid.dfy` | `FurnitureGrid` | the grid manager as a class over a two-dimensional `bool` array |
| `register_system.dfy` | `RegisterSystem` | form checks and the form component |

Points of the code's behaviour worth knowing:

- **Base cap.** The extrusion keeps the base fan. A loop of n points gets
  (n-2) base + (n-2) top + 2n side triangles, that is 4n - 4. A unit square
  gives 12 triangles.
- **Cut points beyond an edge.** A crossing is accepted within 0.01 outside a
  segment's bounding box. A cut point can therefore lie slightly beyond its
  edge's end. Sub-edges are proved to lie on the parent's line and inside its
  box widened by the tolerance. They do not always tile the parent exactly.
- **Closing step not marked.** The step that closes a loop is never added to
  the visited set. Only the steps walked before it are.
- **Writes outside the occupancy table.** `SetOccupied` has no bounds check.
  A block that leaves the table makes C# throw part-way through the write.
  The model ends the operation there: the cells written so far stay written,
  and a flag says the operation did not complete. Nothing after the throw
  happens, neither in that snap nor in the rest of `InitializeGrid`.
- **Exact point equality.** Points are compared exactly, which is how the
  dictionary, hash set and `Contains` lookups of the code compare them. The
  tolerance of Unity's `==` on vectors, used in the walk's stopping test, is
  not modelled.

## Model

| member | source | states |
|---|---|---|
| WallEdges.RectEdgesCycle | Assets/01.Scripts/Floorplan/WallGeometryProcessor.cs:18-37 | a rectangle's four edges form a closed cycle: each ends where the next starts. They start at (xMin, yMin), (xMax, yMin), (xMax, yMax) and (xMin, yMax) in turn, so they run counter-clockwise: right, up, left, down, each parallel to an axis |
| WallEdges.RectEdgesCornerIndependent | Assets/01.Scripts/Floorplan/WallGeometryProcessor.cs:15-29 | the edges depend only on the box: either corner order and either diagonal give the same edges |
| WallEdges.AllRectEdgesAt | Assets/01.Scripts/Floorplan/WallGeometryProcessor.cs:13-38 | every rectangle contributes four edges, in input order: edge j of rectangle k is at position 4k + j |
| WallEdges.RectanglesToEdges | Assets/01.Scripts/Floorplan/WallGeometryProcessor.cs:13-38 | the rectangle loop produces exactly the edge list `AllRectEdges` of the rectangles |
| WallSplit.LineThroughEndpoints | Assets/01.Scripts/Floorplan/WallGeometryProcessor.cs:96-102 | both points lie on the implicit line (A, B, C) derived from them |
| WallSplit.LineSegmentsIntersect | Assets/01.Scripts/Floorplan/WallGeometryProcessor.cs:93-113 | a crossing it returns lies on both supporting lines and inside both bounding boxes widened by 0.01. The lines' determinant is then at least 0.001 in size |
| WallSplit.CramerOnBoth | Assets/01.Scripts/Floorplan/WallGeometryProcessor.cs:104-110 | with a non-zero determinant, the computed point lies on both lines |
| WallSplit.CramerUnique | Assets/01.Scripts/Floorplan/WallGeometryProcessor.cs:104-110 | any point on both lines is the computed point: non-parallel lines meet once |
| WallSplit.IntersectionIff | Assets/01.Scripts/Floorplan/WallGeometryProcessor.cs:93-119 | a point is accepted as the crossing iff three things hold: the determinant is at least 0.001 in size, the point is on both lines, and it is inside both boxes widened by 0.01 |
| WallSplit.ParallelNeverCross | Assets/01.Scripts/Floorplan/WallGeometryProcessor.cs:104-106 | lines whose determinant is below 0.001 in size never give a crossing |
| WallSplit.DiagonalsCross | Assets/01.Scripts/Floorplan/WallGeometryProcessor.cs:93-119 | the unit square's diagonals cross at (0.5, 0.5) |
| WallSplit.ParallelSegmentsDoNotCross | Assets/01.Scripts/Floorplan/WallGeometryProcessor.cs:104-106 | two parallel unit segments give no crossing |
| WallSplit.CutPointsFacts | Assets/01.Scripts/Floorplan/WallGeometryProcessor.cs:72-83 | the cut-point list starts with the edge's two endpoints. Each later point is new and is a crossing seen. Every crossing seen is in the list |
| WallSplit.CutPointsStart | Assets/01.Scripts/Floorplan/WallGeometryProcessor.cs:72 | the cut-point list always starts with the edge's start and end |
| WallSplit.CutPointsNew | Assets/01.Scripts/Floorplan/WallGeometryProcessor.cs:78-81 | each point after the endpoints is a crossing already seen and is not an exact duplicate of an earlier point |
| WallSplit.CutPointsComplete | Assets/01.Scripts/Floorplan/WallGeometryProcessor.cs:78-81 | every crossing seen so far is in the list |
| WallSplit.SplitPointsFacts | Assets/01.Scripts/Floorplan/WallGeometryProcessor.cs:69-83 | the cut points of edge i are its endpoints followed by its crossings with the other edges, each once; every such crossing is present |
| WallSplit.SplitPointsOnParent | Assets/01.Scripts/Floorplan/WallGeometryProcessor.cs:72-83 | every cut point lies on the edge's line and inside its box widened by 0.01 |
| WallSplit.CrossingOnFirst | Assets/01.Scripts/Floorplan/WallGeometryProcessor.cs:108-112 | an accepted crossing lies on the first edge's line and inside its widened box |
| WallSplit.InsertByPermutes | Assets/01.Scripts/Floorplan/WallGeometryProcessor.cs:85 | one insertion step of the stable ordering adds exactly the inserted point |
| WallSplit.InsertBySorted | Assets/01.Scripts/Floorplan/WallGeometryProcessor.cs:85 | inserting into a list sorted by distance keeps it sorted |
| WallSplit.SortByFacts | Assets/01.Scripts/Floorplan/WallGeometryProcessor.cs:85 | ordering by distance returns a permutation of the cut points with distances non-decreasing |
| WallSplit.SortKeepsLeastFirst | Assets/01.Scripts/Floorplan/WallGeometryProcessor.cs:85 | a list whose first point is nearest (the edge's start, at distance 0) keeps that point first |
| WallSplit.SubEdgesFacts | Assets/01.Scripts/Floorplan/WallGeometryProcessor.cs:85-87 | edge i yields one sub-edge fewer than it has cut points, at least one. The first starts at the edge's start, and consecutive sub-edges join. Every endpoint lies on the parent's line and inside its widened box |
| WallSplit.SplitUpToLength | Assets/01.Scripts/Floorplan/WallGeometryProcessor.cs:69-90 | the output length is the sum of the per-edge sub-edge counts, so at least one sub-edge per input edge |
| WallSplit.CollectCutPoints | Assets/01.Scripts/Floorplan/WallGeometryProcessor.cs:71-83 | the inner loop produces exactly the cut points `SplitPoints` of edge i, at least two |
| WallSplit.AppendChain | Assets/01.Scripts/Floorplan/WallGeometryProcessor.cs:86-87 | the last loop appends exactly the edges between consecutive ordered points |
| WallSplit.SplitEdgesAtIntersections | Assets/01.Scripts/Floorplan/WallGeometryProcessor.cs:65-91 | the nested loops produce exactly `SplitAll`, the concatenation of every edge's sub-edges in edge order |
| WallLoops.Outgoing | Assets/01.Scripts/Floorplan/WallGeometryProcessor.cs:124 | a group holds exactly the edges that start at its key |
| WallLoops.GroupByStart | Assets/01.Scripts/Floorplan/WallGeometryProcessor.cs:124 | every start point is a key. Each key's group is non-empty and holds exactly the edges starting there |
| WallLoops.Candidates | Assets/01.Scripts/Floorplan/WallGeometryProcessor.cs:143-145 | the candidates are exactly the group's edges with an unvisited step that do not lead back to the previous point. The first candidate is the earliest such edge of the group |
| WallLoops.Arrive | Assets/01.Scripts/Floorplan/WallGeometryProcessor.cs:138-139 | recording the point reached and marking its step visited grows the visited set by exactly the walked step |
| WallLoops.Advance | Assets/01.Scripts/Floorplan/WallGeometryProcessor.cs:143-150 | moving on along an unvisited, non-backtracking edge keeps the walk's invariant: new, distinct steps along edges |
| WallLoops.Close | Assets/01.Scripts/Floorplan/WallGeometryProcessor.cs:136 | arriving back at the seed's start gives a closed walk along edges with no back-step and no repeated step. Its closing step is unvisited |
| WallLoops.WalkOn | Assets/01.Scripts/Floorplan/WallGeometryProcessor.cs:136-151 | the walk only adds steps of the edges to the visited set |
| WallLoops.WalkOnFacts | Assets/01.Scripts/Floorplan/WallGeometryProcessor.cs:136-151 | a walk in progress ends with exactly its walked steps added to the visited set. When it stops at the seed's start, it is a closed walk along the edges that never steps straight back and never repeats a step, and its closing step is unvisited |
| WallLoops.WalkFromFacts | Assets/01.Scripts/Floorplan/WallGeometryProcessor.cs:132-151 | the same for a whole walk, started at the seed's end having come from its start |
| WallLoops.Walk | Assets/01.Scripts/Floorplan/WallGeometryProcessor.cs:132-151 | the loop returns exactly the walk `WalkFrom` of the seed: it records each point reached, marks the step to it visited, and moves on along the head of the usable edges until it is back at the seed's start or has no usable edge |
| WallLoops.FindClosedLoops | Assets/01.Scripts/Floorplan/WallGeometryProcessor.cs:121-158 | returns exactly `ClosedLoops`: seeds are taken in edge order, a seed whose step is visited either way is skipped, and a walk is kept exactly when it is back at its seed's start with at least three points. The loops are sound: each is a closed, non-backtracking walk along the edges with distinct steps, and no two share a step |
| WallLoops.AcceptLoop | Assets/01.Scripts/Floorplan/WallGeometryProcessor.cs:153-154 | adding a closed, non-backtracking loop with distinct steps, whose seed was unvisited both ways, keeps every accepted loop a loop. Their walks stay in the visited set, and no two share a step |
| WallLoops.LoopsFromSound | Assets/01.Scripts/Floorplan/WallGeometryProcessor.cs:127-155 | from any seed on, with the loops accepted so far sound and their walks visited, all the loops found are sound |
| WallLoops.ClosedLoopsSound | Assets/01.Scripts/Floorplan/WallGeometryProcessor.cs:121-158 | every loop `ClosedLoops` finds is a loop of the edges with at least three points, and no two share a step |
| WallExtrude.QuadsAt | Assets/01.Scripts/Floorplan/WallGeometryProcessor.cs:191-200 | the side triangles over loop edge i are (i, i+n, next+n) and (i, next+n, next) |
| WallExtrude.PrismTriangleCount | Assets/01.Scripts/Floorplan/WallGeometryProcessor.cs:163-200 | an n-point loop gets 4n - 4 triangles, 3(4n - 4) indices |
| WallExtrude.PrismTrisInRange | Assets/01.Scripts/Floorplan/WallGeometryProcessor.cs:163-200 | every triangle names only the 2n vertices |
| WallExtrude.PrismMeshValid | Assets/01.Scripts/Floorplan/WallGeometryProcessor.cs:160-208 | the mesh is well formed: a multiple of three indices, each naming a vertex |
| WallExtrude.PrismVerticesShape | Assets/01.Scripts/Floorplan/WallGeometryProcessor.cs:162-177 | vertex i is loop point i on the ground; vertex i + n is the same point raised by the height |
| WallExtrude.TopCapFlipsBase | Assets/01.Scripts/Floorplan/WallGeometryProcessor.cs:183-189 | top triangle i is base triangle i raised with two corners swapped, so its normal's vertical part is the base's negated |
| WallExtrude.SideQuadIsVertical | Assets/01.Scripts/Floorplan/WallGeometryProcessor.cs:191-200 | the two triangles over a loop edge join its ground points to their raised copies and are vertical |
| WallExtrude.FanIndices | Assets/01.Scripts/Floorplan/WallGeometryProcessor.cs:163-170 | the fan array holds exactly the indices of triangles (0, i+1, i+2) |
| WallExtrude.RaisedVertices | Assets/01.Scripts/Floorplan/WallGeometryProcessor.cs:172-177 | the vertex array holds the ground vertices followed by their copies raised by the height |
| WallExtrude.AppendTopCap | Assets/01.Scripts/Floorplan/WallGeometryProcessor.cs:179-189 | the top fan (n, n+i+2, n+i+1) is appended to the index list |
| WallExtrude.AppendSideQuads | Assets/01.Scripts/Floorplan/WallGeometryProcessor.cs:191-200 | the six indices of each loop edge's quad are appended in edge order |
| WallExtrude.TriangulateAndExtrude | Assets/01.Scripts/Floorplan/WallGeometryProcessor.cs:160-215 | the mesh has exactly the prism's vertices and index buffer: base fan, top fan, side quads |
| WallBuild.WallMeshesWellFormed | Assets/01.Scripts/Floorplan/WallGeometryProcessor.cs:46-53 | every wall mesh is well formed, has 2n vertices and 3(4n - 4) indices, and stands on its loop |
| WallBuild.PrismMeshes | Assets/01.Scripts/Floorplan/WallGeometryProcessor.cs:48-53 | one mesh per loop, in loop order, and mesh k is the prism over loop k |
| WallBuild.ExtrudeLoops | Assets/01.Scripts/Floorplan/WallGeometryProcessor.cs:48-53 | sound loops all have three points or more, so none is skipped: the meshes are exactly the prisms over all the found loops, in order |
| WallBuild.WallMeshesArePrisms | Assets/01.Scripts/Floorplan/WallGeometryProcessor.cs:48-53 | a mesh list that holds the prism of each loop is the list `PrismMeshes` of the loops |
| WallBuild.BuildWallsFromRectangles | Assets/01.Scripts/Floorplan/WallGeometryProcessor.cs:7-56 | the loops returned are exactly `ClosedLoops` of the split rectangle edges. The meshes are exactly one prism per loop, in loop order, and each loop is closed and shares no walked step with another |
| FloorplanLoader.WallRects | Assets/01.Scripts/Floorplan/FloorplanLoader.cs:30-33 | at most one rectangle per shape; when the wall shapes have two corners, so do all results |
| FloorplanLoader.WallRectsExactly | Assets/01.Scripts/Floorplan/FloorplanLoader.cs:30-33 | the wall rectangles are exactly the points of the shapes labelled "wall" of type "rectangle" |
| FloorplanLoader.WallRectsAppend | Assets/01.Scripts/Floorplan/FloorplanLoader.cs:30-33 | the selection keeps file order |
| FloorplanLoader.FloorShape | Assets/01.Scripts/Floorplan/FloorplanLoader.cs:40 | a shape it returns is one of the file's shapes and is labelled "area". When it returns none, no shape has that label |
| FloorplanLoader.FloorShapeIsFirstArea | Assets/01.Scripts/Floorplan/FloorplanLoader.cs:40 | the floor shape is the first shape labelled "area", of any type; there is none iff no shape has that label |
| FloorplanLoader.FloorOnWallBox | Assets/01.Scripts/Floorplan/FloorplanLoader.cs:51-65 | the floor's four vertices are (xMin, yMin), (xMax, yMin), (xMax, yMax), (xMin, yMax) on the ground |
| FloorplanLoader.BuildFloor | Assets/01.Scripts/Floorplan/FloorplanLoader.cs:51-68 | the floor mesh is well formed, with four vertices, all on the ground, and six indices |
| FloorplanLoader.FloorCornerIndependent | Assets/01.Scripts/Floorplan/FloorplanLoader.cs:51-65 | the floor does not depend on which two opposite corners are given, nor on their order |
| FloorplanLoader.FloorFacesUp | Assets/01.Scripts/Floorplan/FloorplanLoader.cs:59-68 | the index list is {0,2,1,0,3,2}: two triangles, all indices below 4. The vertical part of each face normal is (xMax - xMin)(yMax - yMin), never negative |
| FloorplanLoader.Loader.constructor | Assets/01.Scripts/Floorplan/FloorplanLoader.cs:9-12 | the wall height defaults to 2.5 and nothing is built yet |
| FloorplanLoader.Loader.Start | Assets/01.Scripts/Floorplan/FloorplanLoader.cs:18-47 | with no file nothing is built. Otherwise the walls are exactly the prisms over `ClosedLoops` of the wall rectangles' split edges. The floor is built from the first area shape exactly when one exists |
| RegisterSystem.Validate | Assets/01.Scripts/UserManagment/RegisterSystem.cs:19-33 | a failure is reported with one of the three messages |
| RegisterSystem.Utf16Length | Assets/01.Scripts/UserManagment/RegisterSystem.cs:19 | a string's length in UTF-16 code units, as C# `Length` counts it: between |s| and 2|s|, zero only for the empty string, and equal to |s| exactly when no character lies beyond U+FFFF |
| RegisterSystem.SurrogatePairsCount | Assets/01.Scripts/UserManagment/RegisterSystem.cs:19 | three characters beyond U+FFFF are six code units, so such a password passes the length check |
| RegisterSystem.ValidateAccepts | Assets/01.Scripts/UserManagment/RegisterSystem.cs:19-33 | the form passes iff three things hold: the password has at least 6 UTF-16 code units, the user name is non-empty, and the e-mail is non-empty |
| RegisterSystem.ValidateReportsFirstFailure | Assets/01.Scripts/UserManagment/RegisterSystem.cs:19-33 | each message is shown iff its check fails and every earlier check passes: password, then user name, then e-mail |
| RegisterSystem.Form.constructor | Assets/01.Scripts/UserManagment/RegisterSystem.cs:8-15 | the fields hold the given texts, the label is empty, the register panel is shown and the login panel hidden, and nothing has been sent |
| RegisterSystem.Form.RegisterUser | Assets/01.Scripts/UserManagment/RegisterSystem.cs:17-37 | a failed check puts its message in the label and sends nothing. Otherwise exactly one request is sent, carrying the user name as display name, the e-mail and the password, with the both-required flag false |
| RegisterSystem.Form.OnRegisterSuccess | Assets/01.Scripts/UserManagment/RegisterSystem.cs:39-44 | the label says "New User Registered", the login panel is shown and the register panel hidden |
| RegisterSystem.Form.OnError | Assets/01.Scripts/UserManagment/RegisterSystem.cs:46-49 | nothing the form holds changes |
| FurnitureGrid.RoundToInt | Assets/01.Scripts/UserInteraction/FurnitureGridManager.cs:52-53 | Unity's `Mathf.RoundToInt`: the result is at most a half away, an integer is kept, and a tie goes to the even neighbour |
| FurnitureGrid.Clamp | Assets/01.Scripts/UserInteraction/FurnitureGridManager.cs:122-123 | with min <= max the result is in [min, max], and a value already in range is kept |
| FurnitureGrid.GridWorldRoundTrip | Assets/01.Scripts/UserInteraction/FurnitureGridManager.cs:49-62 | with a positive cell size, converting a cell to world space and back gives the same cell |
| FurnitureGrid.ToGridNearest | Assets/01.Scripts/UserInteraction/FurnitureGridManager.cs:49-55 | a world position maps to the cell whose centre is within half a cell of it on both horizontal axes |
| FurnitureGrid.AxisNearest | Assets/01.Scripts/UserInteraction/FurnitureGridManager.cs:52-53 | along one axis, the rounded cell index times the cell size is within half a cell of the coordinate |
| FurnitureGrid.GridCentred | Assets/01.Scripts/UserInteraction/FurnitureGridManager.cs:28-34 | with the offset -(size - 1)/2 * cellSize, the first and last cells lie symmetrically about the manager's position |
| FurnitureGrid.FirstOutside | Assets/01.Scripts/UserInteraction/FurnitureGridManager.cs:97-102 | where a block write stops: nowhere exactly when the block lies inside the table, otherwise at the first offset outside it in column-by-column order, every earlier offset being inside |
| FurnitureGrid.FirstOutsideUnique | Assets/01.Scripts/UserInteraction/FurnitureGridManager.cs:99-101 | an offset outside the table with every earlier offset inside is the one where the write stops |
| FurnitureGrid.Written | Assets/01.Scripts/UserInteraction/FurnitureGridManager.cs:97-102 | the cells a block write changes are exactly the block's cells written before it stops, and all lie inside the table |
| FurnitureGrid.ScanFromFacts | Assets/01.Scripts/UserInteraction/FurnitureGridManager.cs:130-148 | started where no earlier cell passes, the ring, column and row scan finds the first passing cell in scan order. If it finds none, every cell within the search range fails and the result is the desired cell |
| FurnitureGrid.FirstInUnique | Assets/01.Scripts/UserInteraction/FurnitureGridManager.cs:130-148 | there is only one first passing cell in scan order |
| FurnitureGrid.SearchFacts | Assets/01.Scripts/UserInteraction/FurnitureGridManager.cs:125-148 | the search's result is the first cell in scan order that fits in the grid and where the physics world has room, and no passing cell lies on a nearer ring. Without one, no cell within max(gridSize) rings passes and the result is the desired cell |
| FurnitureGrid.SearchMatches | Assets/01.Scripts/UserInteraction/FurnitureGridManager.cs:125-148 | any outcome with those properties is the search's result |
| FurnitureGrid.FirstOccupantIsFirst | Assets/01.Scripts/UserInteraction/FurnitureGridManager.cs:150-159 | the occupant is another item anchored at the target, and no earlier item in dictionary order is. There is none iff no other item is anchored there |
| FurnitureGrid.ClearStep | Assets/01.Scripts/UserInteraction/FurnitureGridManager.cs:110-115 | a moved item's old block is freed and only the table changes; while every placed block lies inside the grid this always completes. For a new or initialising item nothing changes |
| FurnitureGrid.DesiredCell | Assets/01.Scripts/UserInteraction/FurnitureGridManager.cs:117-123 | a footprint no larger than the grid, placed at the clamped cell, lies inside the grid. A cell under the item whose block already fits is kept |
| FurnitureGrid.MoveOccupantStep | Assets/01.Scripts/UserInteraction/FurnitureGridManager.cs:160-172 | moving the occupant completes exactly when its block at the target and its block at the previous cell both lie inside the grid |
| FurnitureGrid.OccupyStep | Assets/01.Scripts/UserInteraction/FurnitureGridManager.cs:174-182 | occupying completes exactly when the item's block lies inside the grid |
| FurnitureGrid.AssignKeepsPlacement | Assets/01.Scripts/UserInteraction/FurnitureGridManager.cs:165-176 | recording an origin whose block lies inside the grid keeps every placed block inside it and the dictionary order in step with its keys; no target is lost |
| FurnitureGrid.PlaceStepKeeps | Assets/01.Scripts/UserInteraction/FurnitureGridManager.cs:150-182 | steps 4 and 5 complete exactly when the item's block at the cell found and, if another item is anchored there, that occupant's block at the previous cell lie inside the grid. Every placed block stays inside the grid |
| FurnitureGrid.PlaceStepRecords | Assets/01.Scripts/UserInteraction/FurnitureGridManager.cs:150-182 | when they complete, the occupant's origin is the previous cell and the item's the cell found, a new item is appended to the dictionary order, and both are sent to their blocks' centres |
| FurnitureGrid.PlaceStepCells | Assets/01.Scripts/UserInteraction/FurnitureGridManager.cs:160-182 | when they complete, the item's block and the occupant's new block are occupied, the occupant's old block is freed where neither covers it, and every other cell is unchanged |
| FurnitureGrid.SnapFacts | Assets/01.Scripts/UserInteraction/FurnitureGridManager.cs:108-183 | a snap, stated over the grid with the item's old block freed: the cell chosen is the first passing cell in scan order (or the clamped desired cell, with no cell in range passing), and it lies inside the grid for a footprint that fits. The snap completes exactly when the item's block and the displaced occupant's block at the previous cell both fit. A completed snap records both origins and targets and changes exactly the cells of the blocks involved |
| FurnitureGrid.SnapRecords | Assets/01.Scripts/UserInteraction/FurnitureGridManager.cs:108-183 | a completed snap gives the item an origin and a target and places no other new item; a first placement appends the item to the dictionary order |
| FurnitureGrid.SnapAllFacts | Assets/01.Scripts/UserInteraction/FurnitureGridManager.cs:41-47 | the snaps of `InitializeGrid` keep every placed block inside the grid and lose no target. When all complete, exactly the listed items have been added to the origins, each with a target |
| FurnitureGrid.SnapAllOrder | Assets/01.Scripts/UserInteraction/FurnitureGridManager.cs:41-47 | when all complete, items placed for the first time join the dictionary order in list order |
| FurnitureGrid.GridManager.constructor | Assets/01.Scripts/UserInteraction/FurnitureGridManager.cs:10-25 | a manager with the given settings, the offset zero, an all-free table of the grid's size, and nothing placed |
| FurnitureGrid.GridManager.OnValidate | Assets/01.Scripts/UserInteraction/FurnitureGridManager.cs:28-34 | the offset becomes the centring offset and nothing else changes |
| FurnitureGrid.GridManager.WorldToGrid | Assets/01.Scripts/UserInteraction/FurnitureGridManager.cs:49-55 | with a positive cell size, the cell's centre is within half a cell of the position on both horizontal axes |
| FurnitureGrid.GridManager.GridToWorld | Assets/01.Scripts/UserInteraction/FurnitureGridManager.cs:57-62 | the position is at the height of the manager plus the offset, and with a positive cell size it maps back to the same cell |
| FurnitureGrid.GridManager.CanFit | Assets/01.Scripts/UserInteraction/FurnitureGridManager.cs:73-83 | true iff every footprint cell is inside the grid and free |
| FurnitureGrid.GridManager.SetOccupied | Assets/01.Scripts/UserInteraction/FurnitureGridManager.cs:97-102 | the write completes iff the block lies inside the table. The cells written are exactly those the write reaches before any cell outside; every other cell keeps its state |
| FurnitureGrid.GridManager.Search | Assets/01.Scripts/UserInteraction/FurnitureGridManager.cs:125-148 | the three search loops return exactly the search's result `SearchResult` |
| FurnitureGrid.GridManager.FindOccupant | Assets/01.Scripts/UserInteraction/FurnitureGridManager.cs:151-159 | the enumeration with early exit returns the first other item in dictionary order anchored at the target |
| FurnitureGrid.GridManager.ClearPrevious | Assets/01.Scripts/UserInteraction/FurnitureGridManager.cs:110-115 | the previous cell is the recorded origin of a moved item, and otherwise the cell under the item. The new state is the one `ClearStep` gives |
| FurnitureGrid.GridManager.MoveOccupant | Assets/01.Scripts/UserInteraction/FurnitureGridManager.cs:160-172 | the new state and the completion flag are those `MoveOccupantStep` gives. Every placed block stays inside the grid |
| FurnitureGrid.GridManager.Occupy | Assets/01.Scripts/UserInteraction/FurnitureGridManager.cs:174-182 | the new state and the completion flag are those `OccupyStep` gives. Every placed block stays inside the grid |
| FurnitureGrid.GridManager.Place | Assets/01.Scripts/UserInteraction/FurnitureGridManager.cs:150-182 | the new state and the completion flag are those `PlaceStep` gives. Every placed block stays inside the grid |
| FurnitureGrid.GridManager.SnapToNearestCell | Assets/01.Scripts/UserInteraction/FurnitureGridManager.cs:108-183 | for any item and position, the new state and whether the snap completed are exactly those of `Snap`, whose properties `SnapFacts` states. Every placed block stays inside the grid |
| FurnitureGrid.GridManager.ResetGrid | Assets/01.Scripts/UserInteraction/FurnitureGridManager.cs:43-44 | a new table of the grid's size with every cell free, and no origins |
| FurnitureGrid.GridManager.InitializeGrid | Assets/01.Scripts/UserInteraction/FurnitureGridManager.cs:41-47 | the new state and whether every snap completed are exactly those of `SnapAll`: from a fresh table, each item in list order is snapped as an initial placement, stopping at the first snap that does not complete |

## Left out

- Scene objects are not modelled: game objects, mesh filters and renderers, materials, `RecalculateNormals` and parenting. The pipeline returns plain vertex and index buffers instead, together with the loops they were extruded from.
- The `vertices` hash set filled in `BuildWallsFromRectangles` is never read, so it is not modelled.
- JSON parsing of the annotation file is not modelled: the loader takes the parsed shapes as its input.
- Shapes whose point lists are too short make the code throw. `Start` and the wall pipeline require wall rectangles and the floor shape to have two points of two coordinates each.
- Floating point is modelled as exact real arithmetic. Float rounding, and the tolerance of Unity's vector `==`, are not modelled.
- `Vector2.Distance` is replaced by the squared distance, which orders points the same way.
- `WallLoops.FindClosedLoops`: loops are walked with exact point equality, as noted above.
- The physics overlap test (`IsSpaceClear`) is a function given to the grid manager. So is the collider-derived footprint (`GetFootprint`, including `CeilToInt` of the collider size plus margin).
- `SetTargetPosition` is recorded as the item's target position. The items' smoothing towards it happens elsewhere and is not modelled.
- `FurnitureGrid.GridManager.SnapToNearestCell`: an exception thrown by a write outside the table is modelled as an operation that stops with its completion flag false, keeping the cells written before it. Exception propagation to Unity is not modelled.
- `FurnitureGrid.GridManager.constructor`: the constructor creates the occupancy table, which the component itself creates only in `InitializeGrid`. The grid size must be non-negative for the table to exist.
- `FurnitureGrid.GridManager.InitializeGrid`: the items' positions are a function fixed for the whole call; the physics world and the footprints are functions fixed for the manager's lifetime.
- `FurnitureGrid.GridManager.SnapToNearestCell`: the item's position is a parameter. `InitializeGrid` takes the items' positions as a function.
- The cell size is assumed positive (`Valid`). With cell size zero the code divides by zero in `WorldToGrid`.
- Dictionary enumeration order is modelled as insertion order, which is what the C# dictionary gives when no entries are removed.
- `OnDrawGizmos` and the debug logging are editor output only, so they are not modelled.
- The network call `PlayFabClientAPI.RegisterPlayFabUser` is not modelled. The form records each request it sends, and the success and error callbacks are methods the caller invokes.
- `RegisterSystem.Form.RegisterUser`: a missing (null) text field is modelled as the empty string.
