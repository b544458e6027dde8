/**
 * The navigation grid manager: a walkability grid laid over the world's x/z
 * plane (one world unit per cell, grid centred on the world origin), the
 * world <-> grid coordinate mapping, rectangular obstacle marking and
 * clearing, the guard around the external A* search, and the sampling of a
 * random walkable cell.
 */
module Pathfinding {
  import opened Wrappers

  /** A position in world space; `y` is height, the grid lies in the x/z plane. */
  datatype Point = Point(x: real, y: real, z: real)

  /** A grid cell: column `x` (from world x) and row `y` (from world z). */
  datatype Cell = Cell(x: int, y: int)

  /** The horizontal extent of an obstacle along world x and world z. */
  datatype Size = Size(x: real, z: real)

  /** A value drawn from `Math.random()`. */
  type Unit = r: real | 0.0 <= r < 1.0

  /** Half a grid dimension: `width / 2` in the source is a real division. */
  function Half(n: nat): real {
    n as real / 2.0
  }

  // ---------------------------------------------------------------------
  // Coordinate mapping
  // ---------------------------------------------------------------------

  /** `worldToGrid`: the cell whose unit square contains the point. */
  function WorldToGrid(width: nat, height: nat, p: Point): (c: Cell)
    ensures c.x as real <= p.x + Half(width) < c.x as real + 1.0
    ensures c.y as real <= p.z + Half(height) < c.y as real + 1.0
  {
    Cell((p.x + Half(width)).Floor, (p.z + Half(height)).Floor)
  }

  /** `gridToWorld`: the centre of a cell, at the character's height 0.5. */
  function GridToWorld(width: nat, height: nat, c: Cell): (p: Point)
    ensures p.y == 0.5
    ensures WorldToGrid(width, height, p) == c
  {
    Point(c.x as real - Half(width) + 0.5, 0.5, c.y as real - Half(height) + 0.5)
  }

  /** Mapping a point to its cell and back moves it by at most half a unit on each axis. */
  lemma SnapToCellCentre(width: nat, height: nat, p: Point)
    ensures var q := GridToWorld(width, height, WorldToGrid(width, height, p));
      p.x - 0.5 < q.x <= p.x + 0.5 && p.z - 0.5 < q.z <= p.z + 0.5
  {
  }

  // ---------------------------------------------------------------------
  // Obstacle footprints
  // ---------------------------------------------------------------------

  /** A half-open rectangle of cells: columns `x0 <= x < x1`, rows `y0 <= y < y1`. */
  datatype Rect = Rect(x0: int, y0: int, x1: int, y1: int) {
    predicate Contains(x: int, y: int) {
      x0 <= x < x1 && y0 <= y < y1
    }
  }

  /** The obstacle's low corner in the x/z plane: `position - size / 2`. */
  function LowCorner(position: Point, size: Size): Point {
    Point(position.x - size.x / 2.0, position.y, position.z - size.z / 2.0)
  }

  /** The obstacle's high corner in the x/z plane: `position + size / 2`. */
  function HighCorner(position: Point, size: Size): Point {
    Point(position.x + size.x / 2.0, position.y, position.z + size.z / 2.0)
  }

  /**
   * The cells an obstacle at `position` with `size` covers: from the cell of
   * its low corner (inclusive) to the cell of its high corner (exclusive).
   * Its extent along each axis is within one cell of the size.
   */
  function Footprint(width: nat, height: nat, position: Point, size: Size): (r: Rect)
    ensures Cell(r.x0, r.y0) == WorldToGrid(width, height, LowCorner(position, size))
    ensures Cell(r.x1, r.y1) == WorldToGrid(width, height, HighCorner(position, size))
    ensures size.x - 1.0 < (r.x1 - r.x0) as real < size.x + 1.0
    ensures size.z - 1.0 < (r.y1 - r.y0) as real < size.z + 1.0
  {
    var start := WorldToGrid(width, height, LowCorner(position, size));
    var end := WorldToGrid(width, height, HighCorner(position, size));
    Rect(start.x, start.y, end.x, end.y)
  }

  /**
   * Which cells a footprint covers: exactly those whose far edge (on both
   * axes, in grid units) lies above the obstacle's low side and at or below
   * its high side. A cell whose far edge coincides with the high side is in;
   * one whose far edge coincides with the low side is out.
   */
  lemma FootprintCovers(width: nat, height: nat, position: Point, size: Size, x: int, y: int)
    ensures Footprint(width, height, position, size).Contains(x, y) <==>
      && LowCorner(position, size).x + Half(width) < (x + 1) as real <= HighCorner(position, size).x + Half(width)
      && LowCorner(position, size).z + Half(height) < (y + 1) as real <= HighCorner(position, size).z + Half(height)
  {
  }

  /** A footprint of whole-unit size `n` by `m` spans exactly `n` columns and `m` rows. */
  lemma FootprintOfWholeSize(width: nat, height: nat, position: Point, n: nat, m: nat)
    ensures var r := Footprint(width, height, position, Size(n as real, m as real));
      r.x1 - r.x0 == n && r.y1 - r.y0 == m
  {
  }

  /** The 1 x 1 footprint a tree registers covers exactly one cell. */
  lemma TreeFootprintIsOneCell(width: nat, height: nat, position: Point)
    ensures var r := Footprint(width, height, position, Size(1.0, 1.0));
      forall x, y :: r.Contains(x, y) <==> x == r.x0 && y == r.y0
  {
  }

  // ---------------------------------------------------------------------
  // Walkability as a value
  // ---------------------------------------------------------------------

  /** Walkable flags by row: `g[y][x]` is the flag of cell (x, y). */
  type Walkability = seq<seq<bool>>

  predicate Shaped(g: Walkability, width: nat, height: nat) {
    |g| == height && forall y :: 0 <= y < height ==> |g[y]| == width
  }

  predicate InBounds(g: Walkability, x: int, y: int) {
    0 <= y < |g| && 0 <= x < |g[y]|
  }

  /** `isWalkableAt`: a cell outside the grid counts as not walkable. */
  predicate Walkable(g: Walkability, c: Cell) {
    InBounds(g, c.x, c.y) && g[c.y][c.x]
  }

  /** Every in-bounds cell of `r` set to `v`; cells of `r` outside the grid are skipped. */
  function Stamp(g: Walkability, r: Rect, v: bool): Walkability {
    seq(|g|, y requires 0 <= y < |g| =>
      seq(|g[y]|, x requires 0 <= x < |g[y]| => if r.Contains(x, y) then v else g[y][x]))
  }

  /** Two grids with the same shape and the same flags are equal. */
  lemma SameCells(g: Walkability, h: Walkability)
    requires |g| == |h|
    requires forall y :: 0 <= y < |g| ==> |g[y]| == |h[y]|
    requires forall y, x :: 0 <= y < |g| && 0 <= x < |g[y]| ==> g[y][x] == h[y][x]
    ensures g == h
  {
    forall y | 0 <= y < |g|
      ensures g[y] == h[y]
    {
      assert forall x :: 0 <= x < |g[y]| ==> g[y][x] == h[y][x];
    }
  }

  /** Stamping keeps the grid's shape, sets the rectangle and leaves every other cell alone. */
  lemma StampCells(g: Walkability, r: Rect, v: bool)
    ensures |Stamp(g, r, v)| == |g|
    ensures forall y :: 0 <= y < |g| ==> |Stamp(g, r, v)[y]| == |g[y]|
    ensures forall x, y :: InBounds(g, x, y) && r.Contains(x, y) ==> Stamp(g, r, v)[y][x] == v
    ensures forall x, y :: InBounds(g, x, y) && !r.Contains(x, y) ==> Stamp(g, r, v)[y][x] == g[y][x]
  {
  }

  /** Marking (or clearing) the same rectangle twice gives the grid marking it once gives. */
  lemma StampIdempotent(g: Walkability, r: Rect, v: bool)
    ensures Stamp(Stamp(g, r, v), r, v) == Stamp(g, r, v)
  {
    var once := Stamp(g, r, v);
    StampCells(g, r, v);
    StampCells(once, r, v);
    SameCells(Stamp(once, r, v), once);
  }

  /**
   * Marking a rectangle and then clearing it restores the grid exactly when
   * every in-bounds cell of the rectangle was walkable beforehand.
   */
  lemma MarkThenClearRestores(g: Walkability, r: Rect)
    ensures Stamp(Stamp(g, r, false), r, true) == g
        <==> forall x, y :: InBounds(g, x, y) && r.Contains(x, y) ==> g[y][x]
  {
    var marked := Stamp(g, r, false);
    var h := Stamp(marked, r, true);
    StampCells(g, r, false);
    StampCells(marked, r, true);
    if forall x, y :: InBounds(g, x, y) && r.Contains(x, y) ==> g[y][x] {
      SameCells(h, g);
    } else {
      var x, y :| InBounds(g, x, y) && r.Contains(x, y) && !g[y][x];
      assert h[y][x] != g[y][x];
    }
  }

  /**
   * Clearing does no reference counting: after marking `r1` and `r2` and
   * clearing `r2`, every cell of `r2` is walkable (including those `r1`
   * still covers), the rest of `r1` stays blocked and every other cell
   * keeps its original flag.
   */
  lemma ClearOneOfTwo(g: Walkability, r1: Rect, r2: Rect)
    ensures var h := Stamp(Stamp(Stamp(g, r1, false), r2, false), r2, true);
      |h| == |g| &&
      (forall y :: 0 <= y < |g| ==> |h[y]| == |g[y]|) &&
      forall x, y :: InBounds(g, x, y) ==>
        h[y][x] == (r2.Contains(x, y) || (!r1.Contains(x, y) && g[y][x]))
  {
  }

  // ---------------------------------------------------------------------
  // Path search and random destinations
  // ---------------------------------------------------------------------

  /**
   * The A* search of the external `pathfinding` package (diagonal moves
   * allowed, corners not cut): given a walkability grid, a start cell and an
   * end cell, the cells of a path from start to end, or none.
   */
  type Finder = (Walkability, Cell, Cell) -> Option<seq<Cell>>

  /** `path.map(p => gridToWorld(p))`: every waypoint is the centre of its path cell. */
  function MapToWorld(width: nat, height: nat, cells: seq<Cell>): (ps: seq<Point>)
    ensures |ps| == |cells|
    ensures forall i :: 0 <= i < |ps| ==> ps[i].y == 0.5 && WorldToGrid(width, height, ps[i]) == cells[i]
    ensures forall i :: 0 <= i < |ps| ==> ps[i] == GridToWorld(width, height, cells[i])
  {
    seq(|cells|, i requires 0 <= i < |cells| => GridToWorld(width, height, cells[i]))
  }

  /** Two successive `Math.random()` draws: one for the column, one for the row. */
  datatype Draw = Draw(u: Unit, v: Unit)

  /** A draw scaled by a dimension `n` lands in `[0, n)` (or at 0 when `n` is 0). */
  lemma ScaledDrawInRange(u: Unit, n: nat)
    ensures 0.0 <= u * n as real
    ensures 0 < n ==> u * n as real < n as real
  {
    if 0 < n {
      assert u * n as real < 1.0 * n as real;
    }
  }

  /** The cell a draw picks: `floor(u * width)`, `floor(v * height)`; inside the grid when it is not empty. */
  function DrawnCell(width: nat, height: nat, d: Draw): (c: Cell)
    ensures 0 < width ==> 0 <= c.x < width
    ensures 0 < height ==> 0 <= c.y < height
  {
    ScaledDrawInRange(d.u, width);
    ScaledDrawInRange(d.v, height);
    Cell((d.u * width as real).Floor, (d.v * height as real).Floor)
  }

  /**
   * What `getRandomWalkablePoint` has done after consuming a finite supply of
   * draws: returned null for want of a grid, returned the centre of a
   * walkable cell, or is still drawing (the source's loop has no bound).
   */
  datatype Sample = NoGrid | Found(point: Point) | StillDrawing

  class PathfindingManager {
    /** The walkability grid, indexed `[y, x]`; null until `Setup`. */
    var grid: array2?<bool>
    /** The external A* finder. */
    const finder: Finder

    constructor(finder: Finder)
      ensures grid == null && this.finder == finder
    {
      grid := null;
      this.finder := finder;
    }

    /** `setup`: a fresh `width` x `height` grid with every cell walkable. */
    method Setup(width: nat, height: nat)
      modifies this
      ensures grid != null && fresh(grid)
      ensures grid.Length1 == width && grid.Length0 == height
      ensures forall y, x :: 0 <= y < height && 0 <= x < width ==> grid[y, x]
    {
      grid := new bool[height, width]((y, x) => true);
    }

    /** A copy of the grid's flags as a value (what `grid.clone()` hands the finder). */
    function Snapshot(): (g: Walkability)
      requires grid != null
      reads this, grid
      ensures Shaped(g, grid.Length1, grid.Length0)
      ensures forall y, x :: 0 <= y < grid.Length0 && 0 <= x < grid.Length1 ==> g[y][x] == grid[y, x]
    {
      var a := grid;
      seq(a.Length0, y requires 0 <= y < a.Length0 reads a =>
        seq(a.Length1, x requires 0 <= x < a.Length1 reads a => a[y, x]))
    }

    /** The grid's `isWalkableAt`, read from the live grid; agrees with the snapshot. */
    function IsWalkableAt(c: Cell): (b: bool)
      requires grid != null
      reads this, grid
      ensures b == Walkable(Snapshot(), c)
    {
      0 <= c.x < grid.Length1 && 0 <= c.y < grid.Length0 && grid[c.y, c.x]
    }

    /** `markObstacle`: the footprint's in-bounds cells become unwalkable, nothing else changes. */
    method MarkObstacle(position: Point, size: Size)
      requires grid != null
      modifies grid
      ensures Snapshot() == Stamp(old(Snapshot()), Footprint(grid.Length1, grid.Length0, position, size), false)
    {
      StampRect(Footprint(grid.Length1, grid.Length0, position, size), false);
    }

    /** `clearObstacle`: the footprint's in-bounds cells become walkable, nothing else changes. */
    method ClearObstacle(position: Point, size: Size)
      requires grid != null
      modifies grid
      ensures Snapshot() == Stamp(old(Snapshot()), Footprint(grid.Length1, grid.Length0, position, size), true)
    {
      StampRect(Footprint(grid.Length1, grid.Length0, position, size), true);
    }

    /** The nested loop shared by `markObstacle` and `clearObstacle`: rows outer, columns inner. */
    method StampRect(r: Rect, v: bool)
      requires grid != null
      modifies grid
      ensures Snapshot() == Stamp(old(Snapshot()), r, v)
    {
      var a := grid;
      ghost var before := Snapshot();
      var y := r.y0;
      while y < r.y1
        invariant r.y0 <= y
        invariant forall j, i :: 0 <= j < a.Length0 && 0 <= i < a.Length1 ==>
          a[j, i] == if r.Contains(i, j) && j < y then v else before[j][i]
      {
        var x := r.x0;
        while x < r.x1
          invariant r.x0 <= x
          invariant forall j, i :: 0 <= j < a.Length0 && 0 <= i < a.Length1 ==>
            a[j, i] == if r.Contains(i, j) && (j < y || (j == y && i < x)) then v else before[j][i]
        {
          if x >= 0 && x < a.Length1 && y >= 0 && y < a.Length0 {
            a[y, x] := v;
          }
          x := x + 1;
        }
        y := y + 1;
      }
      StampCells(before, r, v);
      SameCells(Snapshot(), Stamp(before, r, v));
    }

    /**
     * `findPath`: null without a grid or when the destination cell is not
     * walkable (the start cell is not checked); otherwise the finder's
     * answer on a copy of the grid, each cell mapped to its centre. Reading
     * only, it leaves the live grid as it was.
     */
    function FindPath(startPos: Point, endPos: Point): (r: Option<seq<Point>>)
      reads this, grid
      ensures grid == null ==> r == None
      ensures grid != null ==>
        var s := WorldToGrid(grid.Length1, grid.Length0, startPos);
        var e := WorldToGrid(grid.Length1, grid.Length0, endPos);
        var found := finder(Snapshot(), s, e);
        (r.Some? <==> Walkable(Snapshot(), e) && found.Some?) &&
        (r.Some? ==>
          |r.value| == |found.value| &&
          forall i :: 0 <= i < |r.value| ==>
            r.value[i].y == 0.5 && WorldToGrid(grid.Length1, grid.Length0, r.value[i]) == found.value[i] &&
            r.value[i] == GridToWorld(grid.Length1, grid.Length0, found.value[i]))
    {
      if grid == null then None
      else
        var gridStart := WorldToGrid(grid.Length1, grid.Length0, startPos);
        var gridEnd := WorldToGrid(grid.Length1, grid.Length0, endPos);
        if !IsWalkableAt(gridEnd) then None
        else
          match finder(Snapshot(), gridStart, gridEnd)
          case None => None
          case Some(cells) => Some(MapToWorld(grid.Length1, grid.Length0, cells))
    }

    /**
     * `getRandomWalkablePoint`, fed a finite sequence of draws: null without
     * a grid; otherwise the centre of the first drawn cell that is walkable,
     * every earlier draw having hit a blocked cell. When no draw hits a
     * walkable cell the source would go on drawing; on a grid with no
     * walkable cell that is so for every supply of draws.
     */
    method GetRandomWalkablePoint(draws: seq<Draw>) returns (r: Sample)
      ensures r.NoGrid? <==> grid == null
      ensures r.Found? ==> (grid != null &&
        exists k :: 0 <= k < |draws| &&
          Walkable(Snapshot(), DrawnCell(grid.Length1, grid.Length0, draws[k])) &&
          r.point == GridToWorld(grid.Length1, grid.Length0, DrawnCell(grid.Length1, grid.Length0, draws[k])) &&
          forall j :: 0 <= j < k ==> !Walkable(Snapshot(), DrawnCell(grid.Length1, grid.Length0, draws[j])))
      ensures r.Found? ==> Walkable(Snapshot(), WorldToGrid(grid.Length1, grid.Length0, r.point))
      ensures r.StillDrawing? ==> (grid != null &&
        forall k :: 0 <= k < |draws| ==> !Walkable(Snapshot(), DrawnCell(grid.Length1, grid.Length0, draws[k])))
      ensures grid != null && (forall x, y :: InBounds(Snapshot(), x, y) ==> !Snapshot()[y][x]) ==> r.StillDrawing?
    {
      if grid == null {
        return NoGrid;
      }
      var k := 0;
      while k < |draws|
        invariant 0 <= k <= |draws|
        invariant forall j :: 0 <= j < k ==> !Walkable(Snapshot(), DrawnCell(grid.Length1, grid.Length0, draws[j]))
      {
        var c := DrawnCell(grid.Length1, grid.Length0, draws[k]);
        if IsWalkableAt(c) {
          return Found(GridToWorld(grid.Length1, grid.Length0, c));
        }
        k := k + 1;
      }
      return StillDrawing;
    }
  }
}
