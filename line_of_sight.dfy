/**
 * Line-of-sight edge filter: the second half of create_grid_and_edges.
 * Each candidate edge (a Voronoi ridge, given here by its two real endpoints)
 * is rasterised into cells from its int()-truncated endpoints; the edge is
 * kept, with its original endpoints, only if no cell is out of the grid or
 * marked 1.
 */
module LineOfSight {
  import opened Geometry
  import opened Occupancy

  /** A ridge or roadmap edge between two real endpoints. */
  datatype Edge = Edge(p1: Point, p2: Point)

  /**
   * The cells visited by the ridge (line 42): the rasteriser `line`, standing
   * for bresenham(x0, y0, x1, y1), applied to the truncated endpoints.
   */
  function RidgeCells(e: Edge, line: (int, int, int, int) -> seq<Cell>): seq<Cell>
  {
    line(Trunc(e.p1.north), Trunc(e.p1.east), Trunc(e.p2.north), Trunc(e.p2.east))
  }

  /** A cell is passable when it lies inside the grid and is not marked 1 (lines 46-51). */
  predicate CellFree(grid: array2<int>, c: Cell)
    reads grid
  {
    0 <= c.row < grid.Length0 && 0 <= c.col < grid.Length1 && grid[c.row, c.col] != 1
  }

  /** The cells of a ridge depend only on the cells its two endpoints truncate to. */
  lemma RidgeCellsTruncated(e: Edge, e': Edge, line: (int, int, int, int) -> seq<Cell>)
    requires TruncPoint(e.p1) == TruncPoint(e'.p1) && TruncPoint(e.p2) == TruncPoint(e'.p2)
    ensures RidgeCells(e, line) == RidgeCells(e', line)
  {
  }

  /**
   * On the grid that CreateGrid produces, a cell is passable exactly when it
   * lies inside the grid and no obstacle reaching the flight altitude covers
   * it with its clamped, inflated footprint.
   */
  lemma CellFreeIffUncovered(grid: array2<int>, data: seq<Obstacle>, droneAltitude: real, safety: real, c: Cell)
    requires |data| > 0
    requires grid.Length0 == GridBounds(data).Rows() && grid.Length1 == GridBounds(data).Cols()
    requires forall i, j :: 0 <= i < grid.Length0 && 0 <= j < grid.Length1 ==>
               grid[i, j] == if Occupied(data, GridBounds(data), droneAltitude, safety, i, j) then 1 else 0
    ensures CellFree(grid, c) <==>
              0 <= c.row < grid.Length0 && 0 <= c.col < grid.Length1
              && forall k :: 0 <= k < |data| ==> !Marks(data[k], GridBounds(data), droneAltitude, safety, c.row, c.col)
  {
    OccupiedIffSomeObstacle(data, GridBounds(data), droneAltitude, safety, c.row, c.col);
  }

  predicate LineClear(grid: array2<int>, cells: seq<Cell>)
    reads grid
  {
    forall k :: 0 <= k < |cells| ==> CellFree(grid, cells[k])
  }

  /** The ridges that survive the filter, in ridge order. */
  function Kept(grid: array2<int>, ridges: seq<Edge>, line: (int, int, int, int) -> seq<Cell>): seq<Edge>
    reads grid
    decreases |ridges|
  {
    if ridges == [] then []
    else
      var last := ridges[|ridges| - 1];
      Kept(grid, ridges[..|ridges| - 1], line)
        + (if LineClear(grid, RidgeCells(last, line)) then [last] else [])
  }

  /** An edge is kept exactly when it is a candidate all of whose cells are free. */
  lemma {:induction false} KeptMember(grid: array2<int>, ridges: seq<Edge>,
                                      line: (int, int, int, int) -> seq<Cell>, e: Edge)
    ensures e in Kept(grid, ridges, line) <==> e in ridges && LineClear(grid, RidgeCells(e, line))
    decreases |ridges|
  {
    if ridges != [] {
      var init := ridges[..|ridges| - 1];
      KeptMember(grid, init, line, e);
      assert ridges == init + [ridges[|ridges| - 1]];
    }
  }

  /** Filtering respects ridge order: the edges of a ++ c are a's kept edges followed by c's. */
  lemma {:induction false} KeptConcat(grid: array2<int>, a: seq<Edge>, c: seq<Edge>,
                                      line: (int, int, int, int) -> seq<Cell>)
    ensures Kept(grid, a + c, line) == Kept(grid, a, line) + Kept(grid, c, line)
    decreases |c|
  {
    if c == [] {
      assert a + c == a;
    } else {
      var cInit := c[..|c| - 1];
      assert (a + c)[..|a + c| - 1] == a + cInit;
      assert (a + c)[|a + c| - 1] == c[|c| - 1];
      KeptConcat(grid, a, cInit, line);
    }
  }

  /** The filter never produces more edges than it is given. */
  lemma {:induction false} KeptLength(grid: array2<int>, ridges: seq<Edge>,
                                      line: (int, int, int, int) -> seq<Cell>)
    ensures |Kept(grid, ridges, line)| <= |ridges|
    decreases |ridges|
  {
    if ridges != [] {
      KeptLength(grid, ridges[..|ridges| - 1], line);
    }
  }

  /**
   * Lines 38-55: walk the cells of every ridge, stopping at the first one
   * that is out of bounds or occupied, and keep the ridge if none was hit.
   */
  method FilterEdges(grid: array2<int>, ridges: seq<Edge>, line: (int, int, int, int) -> seq<Cell>)
    returns (edges: seq<Edge>)
    ensures edges == Kept(grid, ridges, line)
  {
    edges := [];
    for v := 0 to |ridges|
      invariant edges == Kept(grid, ridges[..v], line)
    {
      var r := ridges[v];
      var cells := RidgeCells(r, line);
      var hit := false;
      var k := 0;
      while k < |cells|
        invariant 0 <= k <= |cells|
        invariant !hit
        invariant forall m :: 0 <= m < k ==> CellFree(grid, cells[m])
      {
        var c := cells[k];
        if c.row < 0 || c.col < 0 || c.row >= grid.Length0 || c.col >= grid.Length1 {
          hit := true;
          break;
        }
        if grid[c.row, c.col] == 1 {
          hit := true;
          break;
        }
        k := k + 1;
      }
      assert hit <==> !LineClear(grid, cells);
      assert ridges[..v + 1][..v] == ridges[..v];
      if !hit {
        edges := edges + [r];
      }
    }
    assert ridges[..|ridges|] == ridges;
  }
}
