// The furniture occupancy grid: a gridSize.x by gridSize.y table of occupied
// cells, placed relative to the manager's position, and for every placed
// item the cell its footprint starts at. Snapping an item frees its old
// cells, looks outwards from the cell under it for the first block of free
// cells where the physics world also has room, moves any item already
// anchored there to the snapped item's previous cell, and occupies the block.
//
// The footprint of an item (derived from its collider by
// FurnitureGridManager.GetFootprint) and the physics overlap test are given
// to the grid as functions; the positions the grid asks items to move to are
// recorded per item. A write outside the table throws in C#; here it ends
// the operation with the cells written so far and a flag saying it did not
// complete.

module FurnitureGrid {
  import opened Wrappers
  import opened Geometry

  /** A grid cell, or an integer pair such as a footprint size. */
  datatype Cell = Cell(x: int, y: int)

  /** Items are told apart by identity only. */
  type Item = nat

  /** Unity's Mathf.RoundToInt: the nearest integer, halves to the even
      neighbour. The result is at most a half away, an integer is kept, and
      a tie goes to the even neighbour. */
  function RoundToInt(r: real): (n: int)
    ensures -0.5 <= n as real - r <= 0.5
    ensures r == r.Floor as real ==> n == r.Floor
    ensures r - r.Floor as real == 0.5 ==> n % 2 == 0
  {
    var f := r.Floor;
    var frac := r - f as real;
    if frac < 0.5 then f
    else if frac > 0.5 then f + 1
    else if f % 2 == 0 then f
    else f + 1
  }

  /** Unity's Mathf.Clamp on integers: below `min` gives `min`, otherwise
      above `max` gives `max`. With max < min a value at or above min gives
      max. */
  function Clamp(value: int, min: int, max: int): (r: int)
    ensures min <= max ==> min <= r <= max
    ensures min <= value <= max ==> r == value
  {
    if value < min then min
    else if value > max then max
    else value
  }

  /** The offset that puts the middle of the grid at the manager's position:
      the first cell centre lies half the grid's extent (less half a cell)
      below it on each axis. */
  function CentreOffset(size: Cell, cellSize: real): Vec3 {
    var halfW := (size.x - 1) as real * 0.5 * cellSize;
    var halfH := (size.y - 1) as real * 0.5 * cellSize;
    Vec3(-halfW, 0.0, -halfH)
  }

  /** The world position of a cell's centre, for a grid whose cell (0, 0)
      sits at `anchor`. */
  function ToWorld(anchor: Vec3, cellSize: real, g: Cell): Vec3 {
    Add(anchor, Vec3(g.x as real * cellSize, 0.0, g.y as real * cellSize))
  }

  /** The cell nearest to a world position, for a grid whose cell (0, 0) sits
      at `anchor`; height is ignored. */
  function ToGrid(anchor: Vec3, cellSize: real, w: Vec3): Cell
    requires cellSize != 0.0
  {
    var local := Sub(w, anchor);
    Cell(RoundToInt(local.x / cellSize), RoundToInt(local.z / cellSize))
  }

  /** Every cell maps to a world position that maps back to it. */
  lemma GridWorldRoundTrip(anchor: Vec3, cellSize: real, g: Cell)
    requires cellSize > 0.0
    ensures ToGrid(anchor, cellSize, ToWorld(anchor, cellSize, g)) == g
  {
    var w := ToWorld(anchor, cellSize, g);
    var local := Sub(w, anchor);
    var gx, gy := g.x as real, g.y as real;
    assert local.x == gx * cellSize && local.z == gy * cellSize;
    MulDivCancel(gx, cellSize);
    MulDivCancel(gy, cellSize);
    assert RoundToInt(gx) == g.x && RoundToInt(gy) == g.y;
    assert ToGrid(anchor, cellSize, w) == Cell(RoundToInt(gx), RoundToInt(gy));
  }

  lemma MulDivCancel(a: real, c: real)
    requires c != 0.0
    ensures (a * c) / c == a
  {
  }

  /** The cell a world position maps to is the nearest one: its centre is at
      most half a cell away on each horizontal axis. */
  lemma ToGridNearest(anchor: Vec3, cellSize: real, w: Vec3)
    requires cellSize > 0.0
    ensures var c := ToWorld(anchor, cellSize, ToGrid(anchor, cellSize, w));
      -0.5 * cellSize <= c.x - w.x <= 0.5 * cellSize &&
      -0.5 * cellSize <= c.z - w.z <= 0.5 * cellSize
  {
    var local := Sub(w, anchor);
    AxisNearest(local.x, cellSize);
    AxisNearest(local.z, cellSize);
  }

  /** Along one axis, the rounded cell index times the cell size is within
      half a cell of the coordinate. */
  lemma AxisNearest(a: real, cellSize: real)
    requires cellSize > 0.0
    ensures -0.5 * cellSize <= RoundToInt(a / cellSize) as real * cellSize - a <= 0.5 * cellSize
  {
    NearMultiple(a, cellSize, RoundToInt(a / cellSize) as real);
  }

  /** A multiple n * c of the cell size with n within a half of a / c is
      within half a cell of a. */
  lemma NearMultiple(a: real, c: real, n: real)
    requires c > 0.0 && -0.5 <= n - a / c <= 0.5
    ensures -0.5 * c <= n * c - a <= 0.5 * c
  {
    var q := a / c;
    WithinHalfCell(n, q, c);
    assert -0.5 * c <= n * c - q * c <= 0.5 * c;
    DivMulCancel(a, c);
    assert q * c == a;
  }

  lemma WithinHalfCell(n: real, q: real, c: real)
    requires c > 0.0 && -0.5 <= n - q <= 0.5
    ensures -0.5 * c <= n * c - q * c <= 0.5 * c
  {
    MulSubDistrib(n, q, c);
    ScaleHalf(n - q, c);
  }

  lemma DivMulCancel(a: real, c: real)
    requires c != 0.0
    ensures (a / c) * c == a
  {
  }

  lemma MulSubDistrib(a: real, b: real, c: real)
    ensures a * c - b * c == (a - b) * c
  {
  }

  lemma ScaleHalf(e: real, c: real)
    requires c > 0.0 && -0.5 <= e <= 0.5
    ensures -0.5 * c <= e * c <= 0.5 * c
  {
  }

  /** With the centring offset, the first and the last cell lie symmetrically
      about the manager's position, at its height. */
  lemma GridCentred(position: Vec3, size: Cell, cellSize: real)
    ensures var anchor := Add(position, CentreOffset(size, cellSize));
      var first, last := ToWorld(anchor, cellSize, Cell(0, 0)), ToWorld(anchor, cellSize, Cell(size.x - 1, size.y - 1));
      first.x + last.x == 2.0 * position.x && first.z + last.z == 2.0 * position.z &&
      first.y == position.y && last.y == position.y
  {
  }

  /** The cell (x, y) lies in the footprint of size fp anchored at `origin`. */
  predicate InRect(x: int, y: int, origin: Cell, fp: Cell) {
    origin.x <= x < origin.x + fp.x && origin.y <= y < origin.y + fp.y
  }

  /** The cell (x, y) is a valid index of a table of the given size. */
  predicate InGrid(x: int, y: int, size: Cell) {
    0 <= x < size.x && 0 <= y < size.y
  }

  /** Every cell of the footprint lies inside a w by h grid. */
  predicate RectInGrid(origin: Cell, fp: Cell, w: int, h: int) {
    fp.x <= 0 || fp.y <= 0 ||
    (0 <= origin.x && origin.x + fp.x <= w && 0 <= origin.y && origin.y + fp.y <= h)
  }

  /** RectInGrid says what its name says. */
  lemma RectInGridCells(origin: Cell, fp: Cell, w: int, h: int)
    ensures RectInGrid(origin, fp, w, h) <==>
      forall x, y :: InRect(x, y, origin, fp) ==> 0 <= x < w && 0 <= y < h
  {
    if !RectInGrid(origin, fp, w, h) {
      if origin.x < 0 {
        assert InRect(origin.x, origin.y, origin, fp);
      } else if origin.x + fp.x > w {
        assert InRect(origin.x + fp.x - 1, origin.y, origin, fp);
      } else if origin.y < 0 {
        assert InRect(origin.x, origin.y, origin, fp);
      } else {
        assert InRect(origin.x, origin.y + fp.y - 1, origin, fp);
      }
    }
  }

  /** A footprint no larger than the grid. */
  predicate FootprintFits(fp: Cell, size: Cell) {
    0 <= fp.x <= size.x && 0 <= fp.y <= size.y
  }

  /** Offset (x, y) of a block is written before offset `stop` by
      SetOccupied: column by column, and down each column. */
  predicate OffsetBefore(x: int, y: int, stop: Cell) {
    x < stop.x || (x == stop.x && y < stop.y)
  }

  /** Where writing the block of size fp at `origin` into a table of `size`
      stops: None when the whole block is inside, otherwise the offset of the
      first cell outside, in writing order. */
  function FirstOutside(origin: Cell, fp: Cell, size: Cell): (stop: Option<Cell>)
    ensures stop.None? <==> RectInGrid(origin, fp, size.x, size.y)
    ensures stop.Some? ==>
      0 <= stop.value.x < fp.x && 0 <= stop.value.y < fp.y &&
      !InGrid(origin.x + stop.value.x, origin.y + stop.value.y, size) &&
      forall x, y :: 0 <= x < fp.x && 0 <= y < fp.y && OffsetBefore(x, y, stop.value) ==>
        InGrid(origin.x + x, origin.y + y, size)
  {
    if RectInGrid(origin, fp, size.x, size.y) then None
    else if origin.x < 0 || origin.x >= size.x || origin.y < 0 || origin.y >= size.y then Some(Cell(0, 0))
    else if origin.y + fp.y > size.y then Some(Cell(0, size.y - origin.y))
    else Some(Cell(size.x - origin.x, 0))
  }

  /** An offset of the block that lies outside the table, with every offset
      written before it inside, is where the write stops. */
  lemma FirstOutsideUnique(origin: Cell, fp: Cell, size: Cell, stop: Cell)
    requires 0 <= stop.x < fp.x && 0 <= stop.y < fp.y
    requires !InGrid(origin.x + stop.x, origin.y + stop.y, size)
    requires forall x, y :: 0 <= x < fp.x && 0 <= y < fp.y && OffsetBefore(x, y, stop) ==>
      InGrid(origin.x + x, origin.y + y, size)
    ensures FirstOutside(origin, fp, size) == Some(stop)
  {
    RectInGridCells(origin, fp, size.x, size.y);
    assert InRect(origin.x + stop.x, origin.y + stop.y, origin, fp);
    var s := FirstOutside(origin, fp, size).value;
    if OffsetBefore(s.x, s.y, stop) {
      assert false;
    } else if OffsetBefore(stop.x, stop.y, s) {
      assert false;
    }
  }

  /** The cells writing the block changes: all of it, or those written before
      the first cell outside the table. They all lie inside the table. */
  function Written(origin: Cell, fp: Cell, size: Cell): (w: set<Cell>)
    ensures forall x, y :: Cell(x, y) in w <==> (InRect(x, y, origin, fp) &&
      (FirstOutside(origin, fp, size).None? ||
       OffsetBefore(x - origin.x, y - origin.y, FirstOutside(origin, fp, size).value)))
    ensures forall c :: c in w ==> InGrid(c.x, c.y, size)
  {
    var stop := FirstOutside(origin, fp, size);
    var w := set x: int, y: int | origin.x <= x < origin.x + fp.x && origin.y <= y < origin.y + fp.y &&
      (stop.None? || OffsetBefore(x - origin.x, y - origin.y, stop.value)) :: Cell(x, y);
    RectInGridCells(origin, fp, size.x, size.y);
    assert forall c :: c in w ==> (InRect(c.x, c.y, origin, fp) &&
      (stop.None? || OffsetBefore(c.x - origin.x, c.y - origin.y, stop.value)));
    w
  }

  /** The occupied cells after SetOccupied writes `value` over the block. */
  function WriteBlock(cells: set<Cell>, origin: Cell, fp: Cell, value: bool, size: Cell): set<Cell> {
    if value then cells + Written(origin, fp, size) else cells - Written(origin, fp, size)
  }

  /** The grid manager's settings as a value: the grid size, the cell size,
      the world position of cell (0, 0), each item's footprint and the
      physics test that the world has room for an item centred at a
      position. */
  datatype Config = Config(size: Cell, cellSize: real, anchor: Vec3,
                           footprintOf: Item -> Cell, spaceClear: (Item, Vec3) -> bool)

  /** The grid's state as a value: the occupied cells, every placed item's
      origin, the order the origins dictionary enumerates its items in (the
      order they were first added), and the last position each item was asked
      to move to. */
  datatype GridState = GridState(cells: set<Cell>, origins: map<Item, Cell>, order: seq<Item>,
                                 targets: map<Item, Vec3>)

  /** The state an operation leaves, and whether it ran to its end rather than
      stopping at a write outside the table. */
  datatype Outcome = Outcome(state: GridState, completed: bool)

  predicate Distinct(s: seq<Item>) {
    forall i, j :: 0 <= i < j < |s| ==> s[i] != s[j]
  }

  /** The dictionary order lists each placed item once, and every placed
      item's block lies inside the grid. */
  ghost predicate ValidPlacement(cfg: Config, origins: map<Item, Cell>, order: seq<Item>) {
    Distinct(order) && (forall i :: i in order <==> i in origins) &&
    forall i :: i in origins ==> RectInGrid(origins[i], cfg.footprintOf(i), cfg.size.x, cfg.size.y)
  }

  /** The world position an item with footprint fp anchored at `origin` is
      centred on. */
  function Centre(cfg: Config, origin: Cell, fp: Cell): Vec3 {
    Add(ToWorld(cfg.anchor, cfg.cellSize, origin),
        Vec3((fp.x - 1) as real * cfg.cellSize * 0.5, 0.0, (fp.y - 1) as real * cfg.cellSize * 0.5))
  }

  /** Every cell of the block is inside the grid and free. */
  ghost predicate FreeIn(size: Cell, cells: set<Cell>, origin: Cell, fp: Cell) {
    forall x, y :: InRect(x, y, origin, fp) ==> InGrid(x, y, size) && Cell(x, y) !in cells
  }

  /** A candidate origin the search accepts for the item: its block is free
      and the physics world has room for the item centred on it. */
  ghost predicate PassesIn(cfg: Config, cells: set<Cell>, item: Item, test: Cell, fp: Cell) {
    FreeIn(cfg.size, cells, test, fp) && cfg.spaceClear(item, Centre(cfg, test, fp))
  }

  /** The largest search radius: the longer side of the grid. */
  function MaxRadiusOf(size: Cell): int {
    if size.x >= size.y then size.x else size.y
  }

  /** The cell c is at most r cells from `centre` on each axis. */
  predicate Within(c: Cell, centre: Cell, r: int) {
    -r <= c.x - centre.x <= r && -r <= c.y - centre.y <= r
  }

  /** The ring of the search a cell lies on: its larger axis distance. */
  function Ring(c: Cell, centre: Cell): int {
    var ax := if c.x >= centre.x then c.x - centre.x else centre.x - c.x;
    var ay := if c.y >= centre.y then c.y - centre.y else centre.y - c.y;
    if ax >= ay then ax else ay
  }

  /** The search visits offsets ring by ring (r = 0, 1, ...), each ring as
      the full square of side 2r + 1, column by column (dx = -r..r) and in a
      column row by row (dy = -r..r). A cell is scanned before offset
      (dx, dy) of ring r when it lies in the square of ring r - 1, in an
      earlier column of ring r, or earlier in the same column. */
  predicate ScannedBefore(c: Cell, centre: Cell, r: int, dx: int, dy: int) {
    Within(c, centre, r - 1) ||
    (c.x - centre.x < dx && Within(c, centre, r)) ||
    (c.x - centre.x == dx && -r <= c.y - centre.y < dy)
  }

  /** No cell scanned before offset (dx, dy) of ring r passes. The scan
      order is stated over any acceptance test `pass`; the search of a snap
      instantiates it with PassesIn. */
  ghost predicate NoneBefore(pass: Cell -> bool, desired: Cell, r: int, dx: int, dy: int) {
    forall c :: ScannedBefore(c, desired, r, dx, dy) ==> !pass(c)
  }

  /** `best` is the first cell of the search around `desired` that passes: it
      lies within `maxR` cells, it passes, and every cell scanned before it
      fails. */
  ghost predicate FirstIn(pass: Cell -> bool, desired: Cell, maxR: int, best: Cell) {
    Within(best, desired, maxR) && pass(best) &&
    NoneBefore(pass, desired, Ring(best, desired), best.x - desired.x, best.y - desired.y)
  }

  /** What the search finds: a cell, and whether it passed. */
  datatype SearchHit = SearchHit(best: Cell, found: bool)

  /** The search from offset (dx, dy) of ring r on: the first passing cell,
      or the desired cell when no cell up to ring maxR passes. */
  ghost function ScanFrom(pass: Cell -> bool, desired: Cell, maxR: int, r: int, dx: int, dy: int): SearchHit
    requires 0 <= r && -r <= dx <= r + 1 && -r <= dy <= r + 1
    decreases maxR + 1 - r, r + 1 - dx, r + 1 - dy
  {
    if r > maxR then SearchHit(desired, false)
    else if dx > r then ScanFrom(pass, desired, maxR, r + 1, -(r + 1), -(r + 1))
    else if dy > r then ScanFrom(pass, desired, maxR, r, dx + 1, -r)
    else
      var test := Cell(desired.x + dx, desired.y + dy);
      if pass(test) then SearchHit(test, true)
      else ScanFrom(pass, desired, maxR, r, dx, dy + 1)
  }

  /** Having scanned the whole square of ring r, the next ring starts with
      exactly that square scanned. */
  lemma NoneBeforeNextRing(pass: Cell -> bool, desired: Cell, r: int, dy: int)
    requires NoneBefore(pass, desired, r, r + 1, dy)
    ensures NoneBefore(pass, desired, r + 1, -(r + 1), -(r + 1))
  {
    forall c | ScannedBefore(c, desired, r + 1, -(r + 1), -(r + 1)) ensures !pass(c) {
      assert ScannedBefore(c, desired, r, r + 1, dy);
    }
  }

  /** Having scanned a whole column, the next column starts with it
      scanned. */
  lemma NoneBeforeNextColumn(pass: Cell -> bool, desired: Cell, r: int, dx: int)
    requires NoneBefore(pass, desired, r, dx, r + 1)
    ensures NoneBefore(pass, desired, r, dx + 1, -r)
  {
    forall c | ScannedBefore(c, desired, r, dx + 1, -r) ensures !pass(c) {
      assert ScannedBefore(c, desired, r, dx, r + 1);
    }
  }

  /** A cell that fails extends the failing prefix by one row. */
  lemma NoneBeforeNextRow(pass: Cell -> bool, desired: Cell, r: int, dx: int, dy: int)
    requires NoneBefore(pass, desired, r, dx, dy)
    requires !pass(Cell(desired.x + dx, desired.y + dy))
    ensures NoneBefore(pass, desired, r, dx, dy + 1)
  {
    forall c | ScannedBefore(c, desired, r, dx, dy + 1) ensures !pass(c) {
      if c != Cell(desired.x + dx, desired.y + dy) {
        assert ScannedBefore(c, desired, r, dx, dy);
      }
    }
  }

  /** A passing cell at offset (dx, dy) of ring r, with nothing passing
      before it, lies on ring r and is the first pass. */
  lemma PassIsFirst(pass: Cell -> bool, desired: Cell, maxR: int, r: int, dx: int, dy: int)
    requires 0 <= r <= maxR && -r <= dx <= r && -r <= dy <= r
    requires NoneBefore(pass, desired, r, dx, dy)
    requires pass(Cell(desired.x + dx, desired.y + dy))
    ensures FirstIn(pass, desired, maxR, Cell(desired.x + dx, desired.y + dy))
  {
    var test := Cell(desired.x + dx, desired.y + dy);
    assert ScannedBefore(test, desired, r, dx, dy) ==> !pass(test);
    assert Ring(test, desired) == r;
  }

  /** Past the last ring, everything within the search range has been
      scanned. */
  lemma NoneWithinRange(pass: Cell -> bool, desired: Cell, maxR: int, r: int, dx: int, dy: int)
    requires r > maxR
    requires NoneBefore(pass, desired, r, dx, dy)
    ensures forall c :: Within(c, desired, maxR) ==> !pass(c)
  {
    forall c | Within(c, desired, maxR) ensures !pass(c) {
      assert ScannedBefore(c, desired, r, dx, dy);
    }
  }

  /** Started where no earlier cell passes, the scan finds the first passing
      cell in scan order, or, finding none, every cell within the search range
      fails. */
  lemma {:induction false} ScanFromFacts(pass: Cell -> bool, desired: Cell, maxR: int, r: int, dx: int, dy: int)
    requires 0 <= r && -r <= dx <= r + 1 && -r <= dy <= r + 1
    requires NoneBefore(pass, desired, r, dx, dy)
    ensures var h := ScanFrom(pass, desired, maxR, r, dx, dy);
      (h.found ==> FirstIn(pass, desired, maxR, h.best)) &&
      (!h.found ==> (h.best == desired && forall c :: Within(c, desired, maxR) ==> !pass(c)))
    decreases maxR + 1 - r, r + 1 - dx, r + 1 - dy
  {
    if r > maxR {
      NoneWithinRange(pass, desired, maxR, r, dx, dy);
    } else if dx > r {
      NoneBeforeNextRing(pass, desired, r, dy);
      ScanFromFacts(pass, desired, maxR, r + 1, -(r + 1), -(r + 1));
    } else if dy > r {
      NoneBeforeNextColumn(pass, desired, r, dx);
      ScanFromFacts(pass, desired, maxR, r, dx + 1, -r);
    } else if pass(Cell(desired.x + dx, desired.y + dy)) {
      PassIsFirst(pass, desired, maxR, r, dx, dy);
    } else {
      NoneBeforeNextRow(pass, desired, r, dx, dy);
      ScanFromFacts(pass, desired, maxR, r, dx, dy + 1);
    }
  }

  /** Of two different cells, one is scanned before the other. */
  lemma ScanOrderTotal(a: Cell, b: Cell, desired: Cell)
    ensures a == b ||
      ScannedBefore(a, desired, Ring(b, desired), b.x - desired.x, b.y - desired.y) ||
      ScannedBefore(b, desired, Ring(a, desired), a.x - desired.x, a.y - desired.y)
  {
  }

  /** There is only one first passing cell. */
  lemma FirstInUnique(pass: Cell -> bool, desired: Cell, maxR: int, a: Cell, b: Cell)
    requires FirstIn(pass, desired, maxR, a) && FirstIn(pass, desired, maxR, b)
    ensures a == b
  {
    ScanOrderTotal(a, b, desired);
  }

  /** The cells the search of a snap accepts for the item. */
  ghost function Passes(cfg: Config, cells: set<Cell>, item: Item, fp: Cell): Cell -> bool {
    c => PassesIn(cfg, cells, item, c, fp)
  }

  /** `best` is the first cell the search of a snap accepts. */
  ghost predicate FirstPass(cfg: Config, cells: set<Cell>, item: Item, desired: Cell, fp: Cell, best: Cell) {
    FirstIn(Passes(cfg, cells, item, fp), desired, MaxRadiusOf(cfg.size), best)
  }

  /** The whole search of a snap, from ring 0 to the longer side of the
      grid. */
  ghost function SearchResult(cfg: Config, cells: set<Cell>, item: Item, desired: Cell, fp: Cell): SearchHit {
    ScanFrom(Passes(cfg, cells, item, fp), desired, MaxRadiusOf(cfg.size), 0, 0, 0)
  }

  /** The search of a snap finds the first passing cell in ring, column and
      row order, and no passing cell lies on a nearer ring; without one, the
      result is the desired cell and no cell within the search range
      passes. */
  lemma SearchFacts(cfg: Config, cells: set<Cell>, item: Item, desired: Cell, fp: Cell)
    ensures var h := SearchResult(cfg, cells, item, desired, fp);
      (h.found ==> (FirstPass(cfg, cells, item, desired, fp, h.best) &&
        forall c :: PassesIn(cfg, cells, item, c, fp) ==> Ring(c, desired) >= Ring(h.best, desired))) &&
      (!h.found ==> (h.best == desired &&
        forall c :: Within(c, desired, MaxRadiusOf(cfg.size)) ==> !PassesIn(cfg, cells, item, c, fp)))
  {
    var pass := Passes(cfg, cells, item, fp);
    ScanFromFacts(pass, desired, MaxRadiusOf(cfg.size), 0, 0, 0);
    var h := SearchResult(cfg, cells, item, desired, fp);
    if h.found {
      var best := h.best;
      forall c | Ring(c, desired) < Ring(best, desired) ensures !PassesIn(cfg, cells, item, c, fp) {
        assert ScannedBefore(c, desired, Ring(best, desired), best.x - desired.x, best.y - desired.y);
        assert !pass(c);
      }
    }
  }

  /** A search outcome that names the first passing cell, or the desired
      cell when nothing in range passes, is the search's result. */
  lemma SearchMatches(cfg: Config, cells: set<Cell>, item: Item, desired: Cell, fp: Cell, best: Cell, found: bool)
    requires found ==> FirstPass(cfg, cells, item, desired, fp, best)
    requires !found ==> (best == desired &&
      forall c :: Within(c, desired, MaxRadiusOf(cfg.size)) ==> !PassesIn(cfg, cells, item, c, fp))
    ensures SearchHit(best, found) == SearchResult(cfg, cells, item, desired, fp)
  {
    var pass := Passes(cfg, cells, item, fp);
    ScanFromFacts(pass, desired, MaxRadiusOf(cfg.size), 0, 0, 0);
    var h := SearchResult(cfg, cells, item, desired, fp);
    if found && h.found {
      FirstInUnique(pass, desired, MaxRadiusOf(cfg.size), best, h.best);
    }
  }

  /** The first item in dictionary order, other than `item`, whose origin is
      `best`. */
  function FirstOccupant(order: seq<Item>, origins: map<Item, Cell>, item: Item, best: Cell): Option<Item>
  {
    if order == [] then None
    else if order[0] != item && order[0] in origins && origins[order[0]] == best then Some(order[0])
    else FirstOccupant(order[1..], origins, item, best)
  }

  /** The occupant found is another item anchored at `best` and no item
      before it in dictionary order is; none is found exactly when no other
      listed item is anchored there. */
  lemma {:induction false} FirstOccupantIsFirst(order: seq<Item>, origins: map<Item, Cell>, item: Item, best: Cell)
    ensures var r := FirstOccupant(order, origins, item, best);
      (r.None? <==> forall o :: o in order && o != item && o in origins ==> origins[o] != best) &&
      (r.Some? ==> exists k :: (0 <= k < |order| && order[k] == r.value &&
        r.value != item && r.value in origins && origins[r.value] == best &&
        forall m :: 0 <= m < k ==> !(order[m] != item && order[m] in origins && origins[order[m]] == best)))
  {
    if order != [] && !(order[0] != item && order[0] in origins && origins[order[0]] == best) {
      var tail := order[1..];
      FirstOccupantIsFirst(tail, origins, item, best);
      var r := FirstOccupant(order, origins, item, best);
      if r.Some? {
        var k :| 0 <= k < |tail| && tail[k] == r.value &&
          r.value != item && r.value in origins && origins[r.value] == best &&
          forall m :: 0 <= m < k ==> !(tail[m] != item && tail[m] in origins && tail[m] in origins && origins[tail[m]] == best);
        assert order[k + 1] == tail[k];
        forall m | 0 <= m < k + 1
          ensures !(order[m] != item && order[m] in origins && origins[order[m]] == best)
        {
          if m > 0 { assert order[m] == tail[m - 1]; }
        }
      }
      forall o | o in order && o != order[0] ensures o in tail { }
    }
  }

  /** The cell a snapped item comes from: its recorded origin when it is
      being moved, otherwise the cell under its position. */
  function PrevCellIn(cfg: Config, s: GridState, item: Item, initialize: bool, itemPosition: Vec3): Cell
    requires cfg.cellSize != 0.0
  {
    if !initialize && item in s.origins then s.origins[item] else ToGrid(cfg.anchor, cfg.cellSize, itemPosition)
  }

  /** Step 1 of a snap: a moved item's old block is freed; nothing else
      changes. While every placed block lies inside the grid the write always
      completes. */
  function ClearStep(cfg: Config, s: GridState, item: Item, initialize: bool): (o: Outcome)
    ensures o.state.origins == s.origins && o.state.order == s.order && o.state.targets == s.targets
    ensures ValidPlacement(cfg, s.origins, s.order) ==> o.completed
    ensures o.completed && !initialize && item in s.origins ==>
      forall x, y :: Cell(x, y) in o.state.cells <==>
        Cell(x, y) in s.cells && !InRect(x, y, s.origins[item], cfg.footprintOf(item))
    ensures initialize || item !in s.origins ==> o == Outcome(s, true)
  {
    if !initialize && item in s.origins then
      var fp := cfg.footprintOf(item);
      Outcome(s.(cells := WriteBlock(s.cells, s.origins[item], fp, false, cfg.size)),
              FirstOutside(s.origins[item], fp, cfg.size).None?)
    else Outcome(s, true)
  }

  /** Step 2 of a snap: the cell under the item, clamped so that a footprint
      no larger than the grid lies inside it; a cell whose block already lies
      inside is kept. */
  function DesiredCell(cfg: Config, itemPosition: Vec3, fp: Cell): (d: Cell)
    requires cfg.cellSize != 0.0
    ensures FootprintFits(fp, cfg.size) ==> RectInGrid(d, fp, cfg.size.x, cfg.size.y)
    ensures var w := ToGrid(cfg.anchor, cfg.cellSize, itemPosition);
      0 <= w.x <= cfg.size.x - fp.x && 0 <= w.y <= cfg.size.y - fp.y ==> d == w
  {
    var w := ToGrid(cfg.anchor, cfg.cellSize, itemPosition);
    Cell(Clamp(w.x, 0, cfg.size.x - fp.x), Clamp(w.y, 0, cfg.size.y - fp.y))
  }

  /** Records `origin` for `key` in the origins dictionary (a new key goes to
      the end of its enumeration order) and the position `key` is asked to
      move to. */
  function Assign(s: GridState, key: Item, origin: Cell, target: Vec3): GridState {
    s.(origins := s.origins[key := origin],
       order := if key in s.origins then s.order else s.order + [key],
       targets := s.targets[key := target])
  }

  /** Step 4 of a snap: the occupant `o` anchored at `best` has its block
      there freed, occupies its block at `prev` instead and is asked to move
      to that block's centre. It completes exactly when both blocks lie inside
      the grid. */
  function MoveOccupantStep(cfg: Config, s: GridState, o: Item, best: Cell, prev: Cell): (r: Outcome)
    ensures r.completed <==> (RectInGrid(best, cfg.footprintOf(o), cfg.size.x, cfg.size.y) &&
      RectInGrid(prev, cfg.footprintOf(o), cfg.size.x, cfg.size.y))
  {
    var ofp := cfg.footprintOf(o);
    var freed := WriteBlock(s.cells, best, ofp, false, cfg.size);
    if FirstOutside(best, ofp, cfg.size).Some? then Outcome(s.(cells := freed), false)
    else
      var taken := WriteBlock(freed, prev, ofp, true, cfg.size);
      if FirstOutside(prev, ofp, cfg.size).Some? then Outcome(s.(cells := taken), false)
      else Outcome(Assign(s.(cells := taken), o, prev, Centre(cfg, prev, ofp)), true)
  }

  /** Step 5 of a snap: the item's block at `best` is occupied, `best`
      becomes its origin and it is asked to move to the block's centre. It
      completes exactly when the block lies inside the grid. */
  function OccupyStep(cfg: Config, s: GridState, item: Item, best: Cell): (r: Outcome)
    ensures r.completed <==> RectInGrid(best, cfg.footprintOf(item), cfg.size.x, cfg.size.y)
  {
    var fp := cfg.footprintOf(item);
    var taken := WriteBlock(s.cells, best, fp, true, cfg.size);
    if FirstOutside(best, fp, cfg.size).Some? then Outcome(s.(cells := taken), false)
    else Outcome(Assign(s.(cells := taken), item, best, Centre(cfg, best, fp)), true)
  }

  /** Steps 4 and 5: the first other item anchored at `best` is moved to
      `prev`, then the item takes `best`. */
  function PlaceStep(cfg: Config, s: GridState, item: Item, best: Cell, prev: Cell): Outcome {
    var occupant := FirstOccupant(s.order, s.origins, item, best);
    if occupant.None? then OccupyStep(cfg, s, item, best)
    else
      var moved := MoveOccupantStep(cfg, s, occupant.value, best, prev);
      if !moved.completed then moved else OccupyStep(cfg, moved.state, item, best)
  }

  /** FurnitureGridManager.SnapToNearestCell as a function of the grid's
      state: free the item's old block, search outwards from the clamped cell
      under it over the freed grid, and place it at the cell found. */
  ghost function Snap(cfg: Config, s: GridState, item: Item, initialize: bool, itemPosition: Vec3): Outcome
    requires cfg.cellSize != 0.0
  {
    var cleared := ClearStep(cfg, s, item, initialize);
    if !cleared.completed then cleared
    else
      var fp := cfg.footprintOf(item);
      var hit := SearchResult(cfg, cleared.state.cells, item, DesiredCell(cfg, itemPosition, fp), fp);
      PlaceStep(cfg, cleared.state, item, hit.best, PrevCellIn(cfg, s, item, initialize, itemPosition))
  }

  /** Applies `step` to the items in list order, from state s, until one
      step does not complete. */
  ghost function Fold(step: (GridState, Item) -> Outcome, s: GridState, items: seq<Item>): Outcome
    decreases |items|
  {
    if items == [] then Outcome(s, true)
    else
      var o := step(s, items[0]);
      if !o.completed then o else Fold(step, o.state, items[1..])
  }

  /** A snap of an item as an initial placement, from the position
      `positionOf` gives it. */
  ghost function SnapStep(cfg: Config, positionOf: Item -> Vec3): (GridState, Item) -> Outcome
    requires cfg.cellSize != 0.0
  {
    (t: GridState, i: Item) => Snap(cfg, t, i, true, positionOf(i))
  }

  /** The loop of FurnitureGridManager.InitializeGrid as a function: the items
      are snapped in list order as initial placements, from their positions,
      until one snap does not complete. */
  ghost function SnapAll(cfg: Config, s: GridState, items: seq<Item>, positionOf: Item -> Vec3): Outcome
    requires cfg.cellSize != 0.0
  {
    Fold(SnapStep(cfg, positionOf), s, items)
  }

  /** A block written completely changes exactly its own cells. */
  lemma WriteWhole(cells: set<Cell>, origin: Cell, fp: Cell, value: bool, size: Cell)
    requires RectInGrid(origin, fp, size.x, size.y)
    ensures forall x, y :: Cell(x, y) in WriteBlock(cells, origin, fp, value, size) <==>
      if InRect(x, y, origin, fp) then value else Cell(x, y) in cells
  {
  }

  /** Recording an origin whose block lies inside the grid keeps every
      placed block inside it and the dictionary order in step with its keys;
      no item loses its target. */
  lemma AssignKeepsPlacement(cfg: Config, s: GridState, key: Item, origin: Cell, target: Vec3)
    requires ValidPlacement(cfg, s.origins, s.order)
    requires RectInGrid(origin, cfg.footprintOf(key), cfg.size.x, cfg.size.y)
    ensures var a := Assign(s, key, origin, target);
      ValidPlacement(cfg, a.origins, a.order) && s.targets.Keys <= a.targets.Keys
  {
    var a := Assign(s, key, origin, target);
    if key !in s.origins {
      forall i, j | 0 <= i < j < |a.order| ensures a.order[i] != a.order[j] {
        if j == |s.order| {
          assert a.order[i] == s.order[i];
        }
      }
    }
  }

  /** Steps 4 and 5 complete exactly when the item's block at `best` and,
      when another item is anchored there, that occupant's block at `prev`
      both lie inside the grid; every placed block still lies inside the grid
      and no item loses its target. */
  lemma PlaceStepKeeps(cfg: Config, s: GridState, item: Item, best: Cell, prev: Cell)
    requires ValidPlacement(cfg, s.origins, s.order)
    ensures var o := PlaceStep(cfg, s, item, best, prev);
      var fp := cfg.footprintOf(item);
      var occupant := FirstOccupant(s.order, s.origins, item, best);
      var ofp := if occupant.Some? then cfg.footprintOf(occupant.value) else Cell(0, 0);
      (o.completed <==> (RectInGrid(best, fp, cfg.size.x, cfg.size.y) &&
        (occupant.Some? ==> RectInGrid(prev, ofp, cfg.size.x, cfg.size.y)))) &&
      ValidPlacement(cfg, o.state.origins, o.state.order) &&
      s.targets.Keys <= o.state.targets.Keys
  {
    var fp := cfg.footprintOf(item);
    var occupant := FirstOccupant(s.order, s.origins, item, best);
    FirstOccupantIsFirst(s.order, s.origins, item, best);
    var placed := s;
    if occupant.Some? {
      var oc := occupant.value;
      var ofp := cfg.footprintOf(oc);
      var moved := MoveOccupantStep(cfg, s, oc, best, prev);
      if moved.completed {
        var taken := WriteBlock(WriteBlock(s.cells, best, ofp, false, cfg.size), prev, ofp, true, cfg.size);
        AssignKeepsPlacement(cfg, s.(cells := taken), oc, prev, Centre(cfg, prev, ofp));
        placed := moved.state;
      }
    }
    if RectInGrid(best, fp, cfg.size.x, cfg.size.y) {
      var taken := WriteBlock(placed.cells, best, fp, true, cfg.size);
      AssignKeepsPlacement(cfg, placed.(cells := taken), item, best, Centre(cfg, best, fp));
    }
  }

  /** A completed placement records `prev` as the occupant's origin (if
      there is one) and `best` as the item's, appends a newly placed item to
      the dictionary order, and asks both to move to their blocks' centres. */
  lemma PlaceStepRecords(cfg: Config, s: GridState, item: Item, best: Cell, prev: Cell)
    ensures var o := PlaceStep(cfg, s, item, best, prev);
      var fp := cfg.footprintOf(item);
      var occupant := FirstOccupant(s.order, s.origins, item, best);
      var ofp := if occupant.Some? then cfg.footprintOf(occupant.value) else Cell(0, 0);
      o.completed ==>
        o.state.origins == (if occupant.Some? then s.origins[occupant.value := prev] else s.origins)[item := best] &&
        o.state.order == (if item in s.origins then s.order else s.order + [item]) &&
        o.state.targets == (if occupant.Some? then s.targets[occupant.value := Centre(cfg, prev, ofp)]
                            else s.targets)[item := Centre(cfg, best, fp)]
  {
    var occupant := FirstOccupant(s.order, s.origins, item, best);
    FirstOccupantIsFirst(s.order, s.origins, item, best);
  }

  /** A completed placement occupies the item's block and the occupant's
      new block, frees the occupant's old block where neither covers it, and
      leaves every other cell as it was. */
  lemma PlaceStepCells(cfg: Config, s: GridState, item: Item, best: Cell, prev: Cell)
    ensures var o := PlaceStep(cfg, s, item, best, prev);
      var fp := cfg.footprintOf(item);
      var occupant := FirstOccupant(s.order, s.origins, item, best);
      var ofp := if occupant.Some? then cfg.footprintOf(occupant.value) else Cell(0, 0);
      o.completed ==>
        forall x, y :: Cell(x, y) in o.state.cells <==>
          if InRect(x, y, best, fp) || InRect(x, y, prev, ofp) then true
          else if InRect(x, y, best, ofp) then false
          else Cell(x, y) in s.cells
  {
    var fp := cfg.footprintOf(item);
    var occupant := FirstOccupant(s.order, s.origins, item, best);
    if occupant.Some? {
      var ofp := cfg.footprintOf(occupant.value);
      var moved := MoveOccupantStep(cfg, s, occupant.value, best, prev);
      if moved.completed {
        WriteWhole(s.cells, best, ofp, false, cfg.size);
        var freed := WriteBlock(s.cells, best, ofp, false, cfg.size);
        WriteWhole(freed, prev, ofp, true, cfg.size);
        if RectInGrid(best, fp, cfg.size.x, cfg.size.y) {
          WriteWhole(moved.state.cells, best, fp, true, cfg.size);
        }
      }
    } else if RectInGrid(best, fp, cfg.size.x, cfg.size.y) {
      WriteWhole(s.cells, best, fp, true, cfg.size);
    }
  }

  /** What a snap does, over the grid as it is once the item's old block is
      freed: the search's result is the first passing cell (or, with none in
      range, the clamped desired cell); a footprint no larger than the grid
      always fits there; the snap completes exactly when the item's block and
      the displaced occupant's block at the previous cell both fit; every
      placed block stays inside the grid; and a completed snap records both
      origins, asks both items to move, and changes exactly the cells of the
      four blocks involved. */
  lemma SnapFacts(cfg: Config, s: GridState, item: Item, initialize: bool, itemPosition: Vec3)
    requires cfg.cellSize != 0.0 && ValidPlacement(cfg, s.origins, s.order)
    ensures var o := Snap(cfg, s, item, initialize, itemPosition);
      var fp := cfg.footprintOf(item);
      var cleared := ClearStep(cfg, s, item, initialize).state;
      var desired := DesiredCell(cfg, itemPosition, fp);
      var hit := SearchResult(cfg, cleared.cells, item, desired, fp);
      var prev := PrevCellIn(cfg, s, item, initialize, itemPosition);
      var occupant := FirstOccupant(s.order, s.origins, item, hit.best);
      var ofp := if occupant.Some? then cfg.footprintOf(occupant.value) else Cell(0, 0);
      var moving := !initialize && item in s.origins;
      (hit.found ==> FirstPass(cfg, cleared.cells, item, desired, fp, hit.best)) &&
      (!hit.found ==> (hit.best == desired &&
        forall c :: Within(c, desired, MaxRadiusOf(cfg.size)) ==> !PassesIn(cfg, cleared.cells, item, c, fp))) &&
      (FootprintFits(fp, cfg.size) ==> RectInGrid(hit.best, fp, cfg.size.x, cfg.size.y)) &&
      (o.completed <==> (RectInGrid(hit.best, fp, cfg.size.x, cfg.size.y) &&
        (occupant.Some? ==> RectInGrid(prev, ofp, cfg.size.x, cfg.size.y)))) &&
      ValidPlacement(cfg, o.state.origins, o.state.order) &&
      s.targets.Keys <= o.state.targets.Keys &&
      (o.completed ==>
        o.state.origins == (if occupant.Some? then s.origins[occupant.value := prev] else s.origins)[item := hit.best] &&
        o.state.order == (if item in s.origins then s.order else s.order + [item]) &&
        o.state.targets == (if occupant.Some? then s.targets[occupant.value := Centre(cfg, prev, ofp)]
                            else s.targets)[item := Centre(cfg, hit.best, fp)] &&
        forall x, y :: Cell(x, y) in o.state.cells <==>
          if InRect(x, y, hit.best, fp) || InRect(x, y, prev, ofp) then true
          else if InRect(x, y, hit.best, ofp) || (moving && InRect(x, y, prev, fp)) then false
          else Cell(x, y) in s.cells)
  {
    var fp := cfg.footprintOf(item);
    var cleared := ClearStep(cfg, s, item, initialize).state;
    var desired := DesiredCell(cfg, itemPosition, fp);
    SearchFacts(cfg, cleared.cells, item, desired, fp);
    var hit := SearchResult(cfg, cleared.cells, item, desired, fp);
    if hit.found {
      RectInGridCells(hit.best, fp, cfg.size.x, cfg.size.y);
    }
    var prev := PrevCellIn(cfg, s, item, initialize, itemPosition);
    PlaceStepKeeps(cfg, cleared, item, hit.best, prev);
    PlaceStepRecords(cfg, cleared, item, hit.best, prev);
    PlaceStepCells(cfg, cleared, item, hit.best, prev);
  }

  /** A completed snap gives the item an origin and a target and adds no
      other item; a first placement appends the item to the dictionary
      order. */
  lemma SnapRecords(cfg: Config, s: GridState, item: Item, initialize: bool, itemPosition: Vec3)
    requires cfg.cellSize != 0.0 && ValidPlacement(cfg, s.origins, s.order)
    ensures var o := Snap(cfg, s, item, initialize, itemPosition);
      ValidPlacement(cfg, o.state.origins, o.state.order) &&
      s.targets.Keys <= o.state.targets.Keys &&
      (o.completed ==> ((forall i :: i in o.state.origins <==> i in s.origins || i == item) &&
        item in o.state.targets &&
        (item !in s.origins ==> o.state.order == s.order + [item])))
  {
    var cleared := ClearStep(cfg, s, item, initialize).state;
    var fp := cfg.footprintOf(item);
    var hit := SearchResult(cfg, cleared.cells, item, DesiredCell(cfg, itemPosition, fp), fp);
    var prev := PrevCellIn(cfg, s, item, initialize, itemPosition);
    PlaceStepKeeps(cfg, cleared, item, hit.best, prev);
    PlaceStepRecords(cfg, cleared, item, hit.best, prev);
    FirstOccupantIsFirst(s.order, s.origins, item, hit.best);
  }

  /** What one step of a fold does to the grid's records, as SnapRecords
      states it of a snap: every placed block stays inside the grid, no item
      loses its target, and a completed step gives exactly the stepped item a
      new origin and a target, appending a newly placed item to the
      dictionary order. */
  ghost predicate StepRecords(cfg: Config, t: GridState, item: Item, o: Outcome) {
    ValidPlacement(cfg, o.state.origins, o.state.order) &&
    t.targets.Keys <= o.state.targets.Keys &&
    (o.completed ==> ((forall i :: i in o.state.origins <==> i in t.origins || i == item) &&
      item in o.state.targets &&
      (item !in t.origins ==> o.state.order == t.order + [item])))
  }

  /** Every step from a valid placement records as a snap does. */
  ghost predicate StepsRecord(cfg: Config, step: (GridState, Item) -> Outcome) {
    forall t: GridState, i: Item ::
      ValidPlacement(cfg, t.origins, t.order) ==> StepRecords(cfg, t, i, step(t, i))
  }

  /** Initial-placement snaps record as StepsRecord asks. */
  lemma SnapStepRecords(cfg: Config, positionOf: Item -> Vec3)
    requires cfg.cellSize != 0.0
    ensures StepsRecord(cfg, SnapStep(cfg, positionOf))
  {
    forall t: GridState, i: Item | ValidPlacement(cfg, t.origins, t.order)
      ensures StepRecords(cfg, t, i, SnapStep(cfg, positionOf)(t, i))
    {
      SnapRecords(cfg, t, i, true, positionOf(i));
    }
  }

  /** Folding such steps keeps every placed block inside the grid and loses
      no target; when every step completes, the items folded over, and no
      others, have been added to the origins, and each has a target. */
  lemma {:induction false} FoldFacts(cfg: Config, step: (GridState, Item) -> Outcome, s: GridState, items: seq<Item>)
    requires StepsRecord(cfg, step) && ValidPlacement(cfg, s.origins, s.order)
    ensures var o := Fold(step, s, items);
      ValidPlacement(cfg, o.state.origins, o.state.order) &&
      s.targets.Keys <= o.state.targets.Keys &&
      (o.completed ==> forall i ::
        (i in o.state.origins <==> i in s.origins || i in items) && (i in items ==> i in o.state.targets))
    decreases |items|
  {
    if items != [] {
      var o1 := step(s, items[0]);
      assert StepRecords(cfg, s, items[0], o1);
      if o1.completed {
        FoldFacts(cfg, step, o1.state, items[1..]);
        assert items == [items[0]] + items[1..];
      }
    }
  }

  /** The tail of a list without repeats has none, and lacks the head. */
  lemma DistinctTail(items: seq<Item>)
    requires items != [] && Distinct(items)
    ensures Distinct(items[1..]) && items[0] !in items[1..]
  {
    var rest := items[1..];
    forall a, b | 0 <= a < b < |rest| ensures rest[a] != rest[b] {
      assert rest[a] == items[a + 1] && rest[b] == items[b + 1];
    }
  }

  /** Folding such steps over distinct, unplaced items that all complete
      appends the items to the dictionary order in list order. */
  lemma {:induction false} FoldOrder(cfg: Config, step: (GridState, Item) -> Outcome, s: GridState, items: seq<Item>)
    requires StepsRecord(cfg, step) && ValidPlacement(cfg, s.origins, s.order)
    requires Distinct(items) && forall i :: i in items ==> i !in s.origins
    ensures var o := Fold(step, s, items);
      o.completed ==> o.state.order == s.order + items
    decreases |items|
  {
    if items != [] {
      var o1 := step(s, items[0]);
      assert StepRecords(cfg, s, items[0], o1);
      if o1.completed {
        DistinctTail(items);
        assert forall i :: i in items[1..] ==> i in items;
        FoldOrder(cfg, step, o1.state, items[1..]);
        assert s.order + [items[0]] + items[1..] == s.order + items;
      }
    }
  }

  /** InitializeGrid's snaps keep every placed block inside the grid and
      lose no target; when all complete, exactly the listed items have been
      added to the origins, each with a target. */
  lemma SnapAllFacts(cfg: Config, s: GridState, items: seq<Item>, positionOf: Item -> Vec3)
    requires cfg.cellSize != 0.0 && ValidPlacement(cfg, s.origins, s.order)
    ensures var o := SnapAll(cfg, s, items, positionOf);
      ValidPlacement(cfg, o.state.origins, o.state.order) &&
      s.targets.Keys <= o.state.targets.Keys &&
      (o.completed ==> forall i ::
        (i in o.state.origins <==> i in s.origins || i in items) && (i in items ==> i in o.state.targets))
  {
    SnapStepRecords(cfg, positionOf);
    FoldFacts(cfg, SnapStep(cfg, positionOf), s, items);
  }

  /** Items placed for the first time by InitializeGrid join the dictionary
      order in list order. */
  lemma SnapAllOrder(cfg: Config, s: GridState, items: seq<Item>, positionOf: Item -> Vec3)
    requires cfg.cellSize != 0.0 && ValidPlacement(cfg, s.origins, s.order)
    requires Distinct(items) && forall i :: i in items ==> i !in s.origins
    ensures var o := SnapAll(cfg, s, items, positionOf);
      o.completed ==> o.state.order == s.order + items
  {
    SnapStepRecords(cfg, positionOf);
    FoldOrder(cfg, SnapStep(cfg, positionOf), s, items);
  }

  /** FurnitureGridManager: its inspector settings, the occupancy table, the
      origins dictionary (with the order it enumerates its keys in) and the
      positions the items were last asked to move to. */
  class GridManager {
    var gridSize: Cell
    var cellSize: real
    /** The manager's own world position. */
    var position: Vec3
    var originOffset: Vec3
    var occupied: array2<bool>
    var origins: map<Item, Cell>
    var order: seq<Item>
    var targets: map<Item, Vec3>
    /** The cells an item's collider covers, margin included. */
    const footprintOf: Item -> Cell
    /** Whether the physics world has room for the item centred at a position. */
    const spaceClear: (Item, Vec3) -> bool

    /** The settings the grid's operations depend on, as a value. */
    function Cfg(): Config
      reads this`gridSize, this`cellSize, this`position, this`originOffset
    {
      Config(gridSize, cellSize, Add(position, originOffset), footprintOf, spaceClear)
    }

    /** The cells the table marks as occupied. */
    ghost function OccupiedCells(): (cells: set<Cell>)
      reads this`occupied, occupied
      ensures forall x, y :: Cell(x, y) in cells <==>
        0 <= x < occupied.Length0 && 0 <= y < occupied.Length1 && occupied[x, y]
      ensures forall c :: c in cells ==> 0 <= c.x < occupied.Length0 && 0 <= c.y < occupied.Length1
    {
      set x, y | 0 <= x < occupied.Length0 && 0 <= y < occupied.Length1 && occupied[x, y] :: Cell(x, y)
    }

    /** The grid's state as a value. */
    ghost function State(): GridState
      reads this, occupied
    {
      GridState(OccupiedCells(), origins, order, targets)
    }

    /** The table matches the grid size, cells have a positive size, the
        dictionary order lists each placed item once, and every placed item's
        block lies inside the grid. */
    ghost predicate Valid()
      reads this
    {
      occupied.Length0 == gridSize.x && occupied.Length1 == gridSize.y && cellSize > 0.0 &&
      ValidPlacement(Cfg(), origins, order)
    }

    /** A manager with the given settings, an offset of zero until OnValidate
        runs, an all-free table and nothing placed. */
    constructor (gridSize: Cell, cellSize: real, position: Vec3,
                 footprintOf: Item -> Cell, spaceClear: (Item, Vec3) -> bool)
      requires gridSize.x >= 0 && gridSize.y >= 0 && cellSize > 0.0
      ensures Valid() && fresh(occupied)
      ensures this.gridSize == gridSize && this.cellSize == cellSize && this.position == position
      ensures originOffset == Vec3(0.0, 0.0, 0.0)
      ensures this.footprintOf == footprintOf && this.spaceClear == spaceClear
      ensures State() == GridState({}, map[], [], map[])
    {
      this.gridSize := gridSize;
      this.cellSize := cellSize;
      this.position := position;
      this.footprintOf := footprintOf;
      this.spaceClear := spaceClear;
      originOffset := Vec3(0.0, 0.0, 0.0);
      occupied := new bool[gridSize.x, gridSize.y]((x, y) => false);
      origins := map[];
      order := [];
      targets := map[];
      new;
      forall c ensures c !in OccupiedCells() {
        assert c == Cell(c.x, c.y);
      }
      assert OccupiedCells() == {};
    }

    /** OnValidate: recentre the grid on the manager's position. */
    method OnValidate()
      modifies this
      ensures originOffset == CentreOffset(gridSize, cellSize)
      ensures gridSize == old(gridSize) && cellSize == old(cellSize) && position == old(position)
      ensures occupied == old(occupied) && origins == old(origins) && order == old(order)
      ensures targets == old(targets)
    {
      var halfW := (gridSize.x - 1) as real * 0.5 * cellSize;
      var halfH := (gridSize.y - 1) as real * 0.5 * cellSize;
      originOffset := Vec3(-halfW, 0.0, -halfH);
    }

    /** WorldToGrid: the cell nearest to a world position; with a positive
        cell size its centre is at most half a cell away on each horizontal
        axis. */
    function WorldToGrid(w: Vec3): (g: Cell)
      reads this`position, this`originOffset, this`cellSize
      requires cellSize != 0.0
      ensures cellSize > 0.0 ==> var c := ToWorld(Add(position, originOffset), cellSize, g);
        -0.5 * cellSize <= c.x - w.x <= 0.5 * cellSize && -0.5 * cellSize <= c.z - w.z <= 0.5 * cellSize
    {
      var anchor := Add(position, originOffset);
      if cellSize > 0.0 then ToGridNearest(anchor, cellSize, w); ToGrid(anchor, cellSize, w)
      else ToGrid(anchor, cellSize, w)
    }

    /** GridToWorld: the centre of a cell, at the height of the manager plus
        the offset; with a positive cell size it maps back to the cell. */
    function GridToWorld(g: Cell): (w: Vec3)
      reads this`position, this`originOffset, this`cellSize
      ensures w.y == position.y + originOffset.y
      ensures cellSize > 0.0 ==> WorldToGrid(w) == g
    {
      var anchor := Add(position, originOffset);
      if cellSize > 0.0 then GridWorldRoundTrip(anchor, cellSize, g); ToWorld(anchor, cellSize, g)
      else ToWorld(anchor, cellSize, g)
    }

    /** CanFit: the footprint is tested cell by cell, column by column, and
        the first cell outside the grid or occupied answers no. */
    method CanFit(origin: Cell, footprint: Cell) returns (fits: bool)
      requires occupied.Length0 == gridSize.x && occupied.Length1 == gridSize.y
      ensures fits <==> FreeIn(gridSize, OccupiedCells(), origin, footprint)
    {
      var x := 0;
      while x < footprint.x
        invariant 0 <= x && (x == 0 || x <= footprint.x)
        invariant FreeIn(gridSize, OccupiedCells(), origin, Cell(x, footprint.y))
      {
        var column := Cell(origin.x + x, origin.y);
        var y := 0;
        while y < footprint.y
          invariant 0 <= y && (y == 0 || y <= footprint.y)
          invariant FreeIn(gridSize, OccupiedCells(), column, Cell(1, y))
        {
          var gx, gy := origin.x + x, origin.y + y;
          if gx < 0 || gy < 0 || gx >= gridSize.x || gy >= gridSize.y {
            assert InRect(gx, gy, origin, footprint);
            return false;
          }
          if occupied[gx, gy] {
            assert InRect(gx, gy, origin, footprint) && Cell(gx, gy) in OccupiedCells();
            return false;
          }
          forall x', y' | InRect(x', y', column, Cell(1, y + 1))
            ensures InGrid(x', y', gridSize) && Cell(x', y') !in OccupiedCells()
          {
            if y' < gy {
              assert InRect(x', y', column, Cell(1, y));
            }
          }
          y := y + 1;
        }
        forall x', y' | InRect(x', y', origin, Cell(x + 1, footprint.y))
          ensures InGrid(x', y', gridSize) && Cell(x', y') !in OccupiedCells()
        {
          if x' < origin.x + x {
            assert InRect(x', y', origin, Cell(x, footprint.y));
          } else {
            assert InRect(x', y', column, Cell(1, y));
          }
        }
        x := x + 1;
      }
      return true;
    }

    /** The table holds the write of the block's offsets before `stop` over
        the cells `before`, and those offsets all lie inside the table. */
    ghost predicate WroteBefore(before: set<Cell>, origin: Cell, fp: Cell, value: bool, stop: Cell)
      reads this, occupied
    {
      occupied.Length0 == gridSize.x && occupied.Length1 == gridSize.y &&
      (forall c :: c in before ==> InGrid(c.x, c.y, gridSize)) &&
      (forall x, y :: 0 <= x < fp.x && 0 <= y < fp.y && OffsetBefore(x, y, stop) ==>
        InGrid(origin.x + x, origin.y + y, gridSize)) &&
      forall x, y :: InGrid(x, y, gridSize) ==>
        occupied[x, y] == if InRect(x, y, origin, fp) && OffsetBefore(x - origin.x, y - origin.y, stop)
          then value else Cell(x, y) in before
    }

    /** Before the first write the table holds `before`. */
    lemma WroteNothing(before: set<Cell>, origin: Cell, fp: Cell, value: bool)
      requires occupied.Length0 == gridSize.x && occupied.Length1 == gridSize.y
      requires before == OccupiedCells()
      ensures WroteBefore(before, origin, fp, value, Cell(0, 0))
    {
    }

    /** A table that holds `value` exactly on the written cells of a block
        and the cells of `before` elsewhere holds the block's write. */
    lemma TableMatches(before: set<Cell>, origin: Cell, fp: Cell, value: bool)
      requires occupied.Length0 == gridSize.x && occupied.Length1 == gridSize.y
      requires forall c :: c in before ==> InGrid(c.x, c.y, gridSize)
      requires forall x, y :: InGrid(x, y, gridSize) ==>
        occupied[x, y] == if Cell(x, y) in Written(origin, fp, gridSize) then value else Cell(x, y) in before
      ensures OccupiedCells() == WriteBlock(before, origin, fp, value, gridSize)
    {
      forall c ensures c in OccupiedCells() <==> c in WriteBlock(before, origin, fp, value, gridSize) {
        assert c == Cell(c.x, c.y);
      }
    }

    /** A write stopped at an offset outside the table has written what
        WriteBlock says. */
    lemma WriteStops(before: set<Cell>, origin: Cell, fp: Cell, value: bool, stop: Cell)
      requires WroteBefore(before, origin, fp, value, stop)
      requires 0 <= stop.x < fp.x && 0 <= stop.y < fp.y
      requires !InGrid(origin.x + stop.x, origin.y + stop.y, gridSize)
      ensures !RectInGrid(origin, fp, gridSize.x, gridSize.y)
      ensures OccupiedCells() == WriteBlock(before, origin, fp, value, gridSize)
    {
      FirstOutsideUnique(origin, fp, gridSize, stop);
      TableMatches(before, origin, fp, value);
    }

    /** A write past the last column has written the whole block, which lies
        inside the table. */
    lemma WriteEnds(before: set<Cell>, origin: Cell, fp: Cell, value: bool, x: int)
      requires WroteBefore(before, origin, fp, value, Cell(x, 0))
      requires x == fp.x || (x == 0 && fp.x <= 0)
      ensures RectInGrid(origin, fp, gridSize.x, gridSize.y)
      ensures OccupiedCells() == WriteBlock(before, origin, fp, value, gridSize)
    {
      RectInGridCells(origin, fp, gridSize.x, gridSize.y);
      forall x', y' | InRect(x', y', origin, fp) ensures InGrid(x', y', gridSize) {
        assert OffsetBefore(x' - origin.x, y' - origin.y, Cell(x, 0));
      }
      TableMatches(before, origin, fp, value);
    }

    /** A finished column is the same prefix as the start of the next. */
    lemma NextColumn(before: set<Cell>, origin: Cell, fp: Cell, value: bool, x: int, y: int)
      requires WroteBefore(before, origin, fp, value, Cell(x, y))
      requires y >= fp.y && (y == 0 || y == fp.y)
      ensures WroteBefore(before, origin, fp, value, Cell(x + 1, 0))
    {
      var next := Cell(x + 1, 0);
      forall x', y' | 0 <= x' < fp.x && 0 <= y' < fp.y && OffsetBefore(x', y', next)
        ensures InGrid(origin.x + x', origin.y + y', gridSize)
      {
        assert OffsetBefore(x', y', Cell(x, y));
      }
    }

    /** One write of SetOccupied's inner loop: offset (x, y) of the block, a
        cell inside the table, gets `value`. */
    method WriteCell(ghost before: set<Cell>, origin: Cell, fp: Cell, value: bool, x: int, y: int)
      requires WroteBefore(before, origin, fp, value, Cell(x, y))
      requires 0 <= x < fp.x && 0 <= y < fp.y && InGrid(origin.x + x, origin.y + y, gridSize)
      modifies occupied
      ensures WroteBefore(before, origin, fp, value, Cell(x, y + 1))
    {
      occupied[origin.x + x, origin.y + y] := value;
      var next := Cell(x, y + 1);
      forall x', y' | 0 <= x' < fp.x && 0 <= y' < fp.y && OffsetBefore(x', y', next)
        ensures InGrid(origin.x + x', origin.y + y', gridSize)
      {
        if x' != x || y' != y {
          assert OffsetBefore(x', y', Cell(x, y));
        }
      }
    }

    /** The inner loop of SetOccupied: column x of the block, row by row,
        stopping at the first cell outside the table. */
    method WriteColumn(ghost before: set<Cell>, origin: Cell, fp: Cell, value: bool, x: int) returns (ok: bool)
      requires WroteBefore(before, origin, fp, value, Cell(x, 0)) && 0 <= x < fp.x
      modifies occupied
      ensures ok ==> WroteBefore(before, origin, fp, value, Cell(x + 1, 0))
      ensures !ok ==> (!RectInGrid(origin, fp, gridSize.x, gridSize.y) &&
        OccupiedCells() == WriteBlock(before, origin, fp, value, gridSize))
    {
      var y := 0;
      while y < fp.y
        invariant 0 <= y && (y == 0 || y <= fp.y)
        invariant WroteBefore(before, origin, fp, value, Cell(x, y))
      {
        var gx, gy := origin.x + x, origin.y + y;
        if gx < 0 || gy < 0 || gx >= gridSize.x || gy >= gridSize.y {
          WriteStops(before, origin, fp, value, Cell(x, y));
          return false;
        }
        WriteCell(before, origin, fp, value, x, y);
        y := y + 1;
      }
      NextColumn(before, origin, fp, value, x, y);
      return true;
    }

    /** SetOccupied: the block's cells get `value`, column by column. A cell
        outside the table ends the write there (C# throws), leaving the cells
        written before it. */
    method SetOccupied(origin: Cell, footprint: Cell, value: bool) returns (ok: bool)
      requires occupied.Length0 == gridSize.x && occupied.Length1 == gridSize.y
      modifies occupied
      ensures ok <==> RectInGrid(origin, footprint, gridSize.x, gridSize.y)
      ensures OccupiedCells() == WriteBlock(old(OccupiedCells()), origin, footprint, value, gridSize)
    {
      ghost var before := OccupiedCells();
      WroteNothing(before, origin, footprint, value);
      var x := 0;
      while x < footprint.x
        invariant 0 <= x && (x == 0 || x <= footprint.x)
        invariant WroteBefore(before, origin, footprint, value, Cell(x, 0))
      {
        ok := WriteColumn(before, origin, footprint, value, x);
        if !ok {
          return;
        }
        x := x + 1;
      }
      WriteEnds(before, origin, footprint, value, x);
      return true;
    }

    /** The search loops of SnapToNearestCell: rings r = 0..max(gridSize),
        columns dx = -r..r, rows dy = -r..r, stopping at the first candidate
        that fits in the grid and where the physics world has room; without
        one, `best` stays `desired`. */
    method Search(item: Item, desired: Cell, footprint: Cell) returns (best: Cell, found: bool)
      requires Valid()
      ensures SearchHit(best, found) == SearchResult(Cfg(), OccupiedCells(), item, desired, footprint)
    {
      ghost var cfg, cells := Cfg(), OccupiedCells();
      ghost var pass := Passes(cfg, cells, item, footprint);
      best := desired;
      found := false;
      var maxRadius := if gridSize.x >= gridSize.y then gridSize.x else gridSize.y;
      var r := 0;
      while r <= maxRadius && !found
        invariant 0 <= r <= maxRadius + 1
        invariant !found ==> best == desired && NoneBefore(pass, desired, r, -r, -r)
        invariant found ==> FirstIn(pass, desired, maxRadius, best)
      {
        var dx := -r;
        while dx <= r && !found
          invariant -r <= dx <= r + 1
          invariant !found ==> best == desired && NoneBefore(pass, desired, r, dx, -r)
          invariant found ==> FirstIn(pass, desired, maxRadius, best)
        {
          var dy := -r;
          while dy <= r && !found
            invariant -r <= dy <= r + 1
            invariant !found ==> best == desired && NoneBefore(pass, desired, r, dx, dy)
            invariant found ==> FirstIn(pass, desired, maxRadius, best)
          {
            var test := Cell(desired.x + dx, desired.y + dy);
            var fits := CanFit(test, footprint);
            if fits && spaceClear(item, Centre(Cfg(), test, footprint)) {
              assert pass(test);
              PassIsFirst(pass, desired, maxRadius, r, dx, dy);
              best := test;
              found := true;
            } else {
              assert !pass(test);
              NoneBeforeNextRow(pass, desired, r, dx, dy);
            }
            dy := dy + 1;
          }
          if !found {
            NoneBeforeNextColumn(pass, desired, r, dx);
          }
          dx := dx + 1;
        }
        if !found {
          NoneBeforeNextRing(pass, desired, r, -r);
        }
        r := r + 1;
      }
      if !found {
        NoneWithinRange(pass, desired, maxRadius, r, -r, -r);
      }
      SearchMatches(cfg, cells, item, desired, footprint, best, found);
    }

    /** The enumeration of the origins dictionary with early exit: the first
        item other than `item` anchored at `best`. */
    method FindOccupant(item: Item, best: Cell) returns (occupant: Option<Item>)
      requires Valid()
      ensures occupant == FirstOccupant(order, origins, item, best)
    {
      occupant := None;
      var k := 0;
      while k < |order|
        invariant 0 <= k <= |order|
        invariant FirstOccupant(order[k..], origins, item, best) == FirstOccupant(order, origins, item, best)
      {
        var key := order[k];
        if key != item && origins[key] == best {
          occupant := Some(key);
          return;
        }
        assert order[k..][1..] == order[k + 1..];
        k := k + 1;
      }
    }

    /** Step 1 of SnapToNearestCell: a moved item's old block is freed; the
        previous cell is its recorded origin, or for a new or initialising
        item the cell under it. */
    method ClearPrevious(item: Item, initialize: bool, itemPosition: Vec3) returns (previous: Cell)
      requires Valid()
      modifies occupied
      ensures previous == PrevCellIn(Cfg(), old(State()), item, initialize, itemPosition)
      ensures Outcome(State(), true) == ClearStep(Cfg(), old(State()), item, initialize)
    {
      if !initialize && item in origins {
        previous := origins[item];
        var cleared := SetOccupied(previous, footprintOf(item), false);
      } else {
        previous := WorldToGrid(itemPosition);
      }
    }

    /** Step 4 of SnapToNearestCell: the occupant `o`, anchored at `best`, has
        its block there freed, occupies its block at `previous` instead and is
        asked to move to that block's centre. */
    method MoveOccupant(o: Item, best: Cell, previous: Cell) returns (ok: bool)
      requires Valid() && o in origins && origins[o] == best
      modifies this, occupied
      ensures Valid()
      ensures gridSize == old(gridSize) && cellSize == old(cellSize) && position == old(position)
      ensures originOffset == old(originOffset) && occupied == old(occupied)
      ensures Outcome(State(), ok) == MoveOccupantStep(old(Cfg()), old(State()), o, best, previous)
    {
      var occFoot := footprintOf(o);
      var freed := SetOccupied(best, occFoot, false);
      ok := SetOccupied(previous, occFoot, true);
      if !ok {
        return;
      }
      origins := origins[o := previous];
      targets := targets[o := Centre(Cfg(), previous, occFoot)];
    }

    /** Step 5 of SnapToNearestCell: the item's block at `best` is occupied,
        `best` becomes its origin (a new item is added at the end of the
        dictionary order) and it is asked to move to the block's centre. */
    method Occupy(item: Item, best: Cell) returns (ok: bool)
      requires Valid()
      modifies this, occupied
      ensures Valid()
      ensures gridSize == old(gridSize) && cellSize == old(cellSize) && position == old(position)
      ensures originOffset == old(originOffset) && occupied == old(occupied)
      ensures Outcome(State(), ok) == OccupyStep(old(Cfg()), old(State()), item, best)
    {
      var footprint := footprintOf(item);
      ok := SetOccupied(best, footprint, true);
      if !ok {
        return;
      }
      if item !in origins {
        order := order + [item];
      }
      origins := origins[item := best];
      targets := targets[item := Centre(Cfg(), best, footprint)];
    }

    /** Steps 4 and 5 of SnapToNearestCell: an item other than `item` anchored
        at `best` is moved to `previous`, then the item takes `best`. */
    method Place(item: Item, best: Cell, previous: Cell) returns (ok: bool)
      requires Valid()
      modifies this, occupied
      ensures Valid()
      ensures gridSize == old(gridSize) && cellSize == old(cellSize) && position == old(position)
      ensures originOffset == old(originOffset) && occupied == old(occupied)
      ensures Outcome(State(), ok) == PlaceStep(old(Cfg()), old(State()), item, best, previous)
    {
      var occupant := FindOccupant(item, best);
      if occupant.Some? {
        FirstOccupantIsFirst(order, origins, item, best);
        ok := MoveOccupant(occupant.value, best, previous);
        if !ok {
          return;
        }
      }
      ok := Occupy(item, best);
    }

    /** SnapToNearestCell: free the item's old block when it is being moved,
        search outwards from the clamped cell under it, send an item already
        anchored at the cell found to the snapped item's previous cell, and
        occupy the item's block there. `ok` is false when a write left the
        table, where C# throws. */
    method SnapToNearestCell(item: Item, initialize: bool, itemPosition: Vec3) returns (ok: bool)
      requires Valid()
      modifies this, occupied
      ensures Valid()
      ensures gridSize == old(gridSize) && cellSize == old(cellSize) && position == old(position)
      ensures originOffset == old(originOffset) && occupied == old(occupied)
      ensures Outcome(State(), ok) == Snap(old(Cfg()), old(State()), item, initialize, itemPosition)
    {
      var previous := ClearPrevious(item, initialize, itemPosition);
      var desired := WorldToGrid(itemPosition);
      var footprint := footprintOf(item);
      desired := Cell(Clamp(desired.x, 0, gridSize.x - footprint.x), Clamp(desired.y, 0, gridSize.y - footprint.y));
      assert desired == DesiredCell(Cfg(), itemPosition, footprint);
      var best, found := Search(item, desired, footprint);
      ok := Place(item, best, previous);
    }

    /** The first half of InitializeGrid: a new table of the grid's size with
        every cell free, and no origins. */
    method ResetGrid()
      requires gridSize.x >= 0 && gridSize.y >= 0 && cellSize > 0.0
      modifies this
      ensures Valid() && fresh(occupied)
      ensures State() == GridState({}, map[], [], old(targets))
      ensures gridSize == old(gridSize) && cellSize == old(cellSize) && position == old(position)
      ensures originOffset == old(originOffset)
    {
      occupied := new bool[gridSize.x, gridSize.y]((x, y) => false);
      origins := map[];
      order := [];
      forall c ensures c !in OccupiedCells() {
        assert c == Cell(c.x, c.y);
      }
      assert OccupiedCells() == {};
    }

    /** InitializeGrid: the table is reset, then every item is snapped in list
        order as an initial placement, from its position; a snap that does
        not complete ends it. */
    method InitializeGrid(items: seq<Item>, positionOf: Item -> Vec3) returns (ok: bool)
      requires gridSize.x >= 0 && gridSize.y >= 0 && cellSize > 0.0
      modifies this
      ensures Valid() && fresh(occupied)
      ensures gridSize == old(gridSize) && cellSize == old(cellSize) && position == old(position)
      ensures originOffset == old(originOffset)
      ensures Outcome(State(), ok) == SnapAll(old(Cfg()), GridState({}, map[], [], old(targets)), items, positionOf)
    {
      ResetGrid();
      ghost var start := State();
      assert items[0..] == items;
      for k := 0 to |items|
        invariant Valid() && fresh(occupied)
        invariant gridSize == old(gridSize) && cellSize == old(cellSize) && position == old(position)
        invariant originOffset == old(originOffset)
        invariant SnapAll(Cfg(), State(), items[k..], positionOf) == SnapAll(Cfg(), start, items, positionOf)
      {
        assert items[k..][1..] == items[k + 1..];
        ok := SnapToNearestCell(items[k], true, positionOf(items[k]));
        if !ok {
          return;
        }
      }
      ok := true;
    }
  }
}
