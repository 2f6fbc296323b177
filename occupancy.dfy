/**
 * Occupancy rasterisation: the first half of create_grid_and_edges.
 * Obstacle prisms whose top (plus the safety margin) rises above the flight
 * altitude are inflated by the margin, clamped to the grid and written into
 * it as inclusive rectangles of 1s; each such obstacle also yields one
 * grid-local reference point for the roadmap.
 */
module Occupancy {
  import opened Geometry

  /** One obstacle record: centre (north, east, alt) and half-extents. */
  datatype Obstacle = Obstacle(north: real, east: real, alt: real,
                               dNorth: real, dEast: real, dAlt: real)

  /** Integer grid bounds: floor of the least and ceiling of the greatest inflated extent. */
  datatype Bounds = Bounds(northMin: int, northMax: int, eastMin: int, eastMax: int)
  {
    function Rows(): int { northMax - northMin }
    function Cols(): int { eastMax - eastMin }
  }

  /** An inclusive rectangle of cell indices [loN..hiN] x [loE..hiE]. */
  datatype Rect = Rect(loN: int, hiN: int, loE: int, hiE: int)

  predicate InRect(r: Rect, i: int, j: int)
  {
    r.loN <= i <= r.hiN && r.loE <= j <= r.hiE
  }

  function NorthLows(data: seq<Obstacle>): (s: seq<real>)
    ensures |s| == |data|
    ensures forall k :: 0 <= k < |data| ==> s[k] == data[k].north - data[k].dNorth
  {
    seq(|data|, k requires 0 <= k < |data| => data[k].north - data[k].dNorth)
  }

  function NorthHighs(data: seq<Obstacle>): (s: seq<real>)
    ensures |s| == |data|
    ensures forall k :: 0 <= k < |data| ==> s[k] == data[k].north + data[k].dNorth
  {
    seq(|data|, k requires 0 <= k < |data| => data[k].north + data[k].dNorth)
  }

  function EastLows(data: seq<Obstacle>): (s: seq<real>)
    ensures |s| == |data|
    ensures forall k :: 0 <= k < |data| ==> s[k] == data[k].east - data[k].dEast
  {
    seq(|data|, k requires 0 <= k < |data| => data[k].east - data[k].dEast)
  }

  function EastHighs(data: seq<Obstacle>): (s: seq<real>)
    ensures |s| == |data|
    ensures forall k :: 0 <= k < |data| ==> s[k] == data[k].east + data[k].dEast
  {
    seq(|data|, k requires 0 <= k < |data| => data[k].east + data[k].dEast)
  }

  /**
   * The grid bounds of a non-empty obstacle list: northMin is the greatest
   * integer below every obstacle's southern edge, northMax the least integer
   * above every northern edge, and likewise east.
   */
  function GridBounds(data: seq<Obstacle>): (b: Bounds)
    requires |data| > 0
    ensures forall k :: 0 <= k < |data| ==> b.northMin as real <= data[k].north - data[k].dNorth
    ensures exists k :: 0 <= k < |data| && data[k].north - data[k].dNorth < b.northMin as real + 1.0
    ensures forall k :: 0 <= k < |data| ==> data[k].north + data[k].dNorth <= b.northMax as real
    ensures exists k :: 0 <= k < |data| && b.northMax as real - 1.0 < data[k].north + data[k].dNorth
    ensures forall k :: 0 <= k < |data| ==> b.eastMin as real <= data[k].east - data[k].dEast
    ensures exists k :: 0 <= k < |data| && data[k].east - data[k].dEast < b.eastMin as real + 1.0
    ensures forall k :: 0 <= k < |data| ==> data[k].east + data[k].dEast <= b.eastMax as real
    ensures exists k :: 0 <= k < |data| && b.eastMax as real - 1.0 < data[k].east + data[k].dEast
  {
    var nLo := MinOf(NorthLows(data));
    var nHi := MaxOf(NorthHighs(data));
    var eLo := MinOf(EastLows(data));
    var eHi := MaxOf(EastHighs(data));
    Bounds(nLo.Floor, Ceil(nHi), eLo.Floor, Ceil(eHi))
  }

  /** np.zeros refuses a negative dimension, which negative half-extents can produce. */
  predicate SizesValid(data: seq<Obstacle>)
    requires |data| > 0
  {
    GridBounds(data).Rows() >= 0 && GridBounds(data).Cols() >= 0
  }

  /** The altitude test of line 26: does the obstacle reach the flight altitude? */
  predicate Qualifies(o: Obstacle, droneAltitude: real, safety: real)
  {
    o.alt + o.dAlt + safety > droneAltitude
  }

  /** int(np.clip(x, 0, size - 1)). */
  function ClampIndex(x: real, size: int): (k: int)
    ensures size >= 1 ==> 0 <= k <= size - 1
    ensures size >= 1 && 0.0 <= x <= (size - 1) as real ==> k as real <= x < k as real + 1.0
    ensures size >= 1 && x < 0.0 ==> k == 0
    ensures size >= 1 && x > (size - 1) as real ==> k == size - 1
  {
    Trunc(Clip(x, 0.0, (size - 1) as real))
  }

  /** The inflated footprint of an obstacle, clamped to the grid (lines 27-32). */
  function Footprint(o: Obstacle, b: Bounds, safety: real): (r: Rect)
    ensures b.Rows() >= 1 ==> 0 <= r.loN < b.Rows() && 0 <= r.hiN < b.Rows()
    ensures b.Cols() >= 1 ==> 0 <= r.loE < b.Cols() && 0 <= r.hiE < b.Cols()
  {
    Rect(ClampIndex(o.north - o.dNorth - safety - b.northMin as real, b.Rows()),
         ClampIndex(o.north + o.dNorth + safety - b.northMin as real, b.Rows()),
         ClampIndex(o.east - o.dEast - safety - b.eastMin as real, b.Cols()),
         ClampIndex(o.east + o.dEast + safety - b.eastMin as real, b.Cols()))
  }

  /**
   * Does obstacle o set cell (i, j)?  On a grid with no cells the clamped
   * indices are -1 and numpy's slice is empty, so nothing is marked.
   */
  predicate Marks(o: Obstacle, b: Bounds, droneAltitude: real, safety: real, i: int, j: int)
  {
    Qualifies(o, droneAltitude, safety) && b.Rows() >= 1 && b.Cols() >= 1
    && InRect(Footprint(o, b, safety), i, j)
  }

  /** Is cell (i, j) set once the obstacles of obs have been processed in order? */
  predicate Occupied(obs: seq<Obstacle>, b: Bounds, droneAltitude: real, safety: real, i: int, j: int)
    decreases |obs|
  {
    obs != [] &&
    (Occupied(obs[..|obs| - 1], b, droneAltitude, safety, i, j)
     || Marks(obs[|obs| - 1], b, droneAltitude, safety, i, j))
  }

  /** The reference point of line 34: the obstacle centre relative to the grid origin, unclamped. */
  function RefPoint(o: Obstacle, b: Bounds): (p: Point)
    ensures p.north + b.northMin as real == o.north
    ensures p.east + b.eastMin as real == o.east
  {
    Point(o.north - b.northMin as real, o.east - b.eastMin as real)
  }

  /** The reference points appended while processing obs in order. */
  function RefPoints(obs: seq<Obstacle>, b: Bounds, droneAltitude: real, safety: real): seq<Point>
    decreases |obs|
  {
    if obs == [] then []
    else
      var last := obs[|obs| - 1];
      RefPoints(obs[..|obs| - 1], b, droneAltitude, safety)
        + (if Qualifies(last, droneAltitude, safety) then [RefPoint(last, b)] else [])
  }

  /** An obstacle that fails the altitude test of line 26 changes neither the grid nor the points. */
  lemma NonQualifyingIgnored(obs: seq<Obstacle>, o: Obstacle, b: Bounds, droneAltitude: real, safety: real)
    requires !Qualifies(o, droneAltitude, safety)
    ensures forall i, j :: Occupied(obs + [o], b, droneAltitude, safety, i, j) == Occupied(obs, b, droneAltitude, safety, i, j)
    ensures RefPoints(obs + [o], b, droneAltitude, safety) == RefPoints(obs, b, droneAltitude, safety)
  {
    assert (obs + [o])[..|obs + [o]| - 1] == obs;
  }

  /** A cell is occupied exactly when some qualifying obstacle's clamped footprint covers it. */
  lemma {:induction false} OccupiedIffSomeObstacle(obs: seq<Obstacle>, b: Bounds,
                                                   droneAltitude: real, safety: real, i: int, j: int)
    ensures Occupied(obs, b, droneAltitude, safety, i, j)
            <==> exists k :: 0 <= k < |obs| && Marks(obs[k], b, droneAltitude, safety, i, j)
    decreases |obs|
  {
    if obs != [] {
      var init := obs[..|obs| - 1];
      OccupiedIffSomeObstacle(init, b, droneAltitude, safety, i, j);
      if Occupied(obs, b, droneAltitude, safety, i, j) {
        if Occupied(init, b, droneAltitude, safety, i, j) {
          var k :| 0 <= k < |init| && Marks(init[k], b, droneAltitude, safety, i, j);
          assert obs[k] == init[k];
        } else {
          assert Marks(obs[|obs| - 1], b, droneAltitude, safety, i, j);
        }
      }
      if exists k :: 0 <= k < |obs| && Marks(obs[k], b, droneAltitude, safety, i, j) {
        var k :| 0 <= k < |obs| && Marks(obs[k], b, droneAltitude, safety, i, j);
        if k < |obs| - 1 {
          assert init[k] == obs[k];
        }
      }
    }
  }

  /** Reference points follow input order: processing a ++ c yields a's points, then c's. */
  lemma {:induction false} RefPointsConcat(a: seq<Obstacle>, c: seq<Obstacle>, b: Bounds,
                                           droneAltitude: real, safety: real)
    ensures RefPoints(a + c, b, droneAltitude, safety)
            == RefPoints(a, b, droneAltitude, safety) + RefPoints(c, b, droneAltitude, safety)
    decreases |c|
  {
    if c == [] {
      assert a + c == a;
    } else {
      var cInit := c[..|c| - 1];
      assert (a + c)[..|a + c| - 1] == a + cInit;
      assert (a + c)[|a + c| - 1] == c[|c| - 1];
      RefPointsConcat(a, cInit, b, droneAltitude, safety);
    }
  }

  /** Exactly the qualifying obstacles contribute a reference point. */
  lemma {:induction false} RefPointsMember(obs: seq<Obstacle>, b: Bounds,
                                           droneAltitude: real, safety: real, p: Point)
    ensures p in RefPoints(obs, b, droneAltitude, safety)
            <==> exists k :: 0 <= k < |obs| && Qualifies(obs[k], droneAltitude, safety)
                             && p == RefPoint(obs[k], b)
    decreases |obs|
  {
    if obs != [] {
      var init := obs[..|obs| - 1];
      var last := obs[|obs| - 1];
      RefPointsMember(init, b, droneAltitude, safety, p);
      if p in RefPoints(obs, b, droneAltitude, safety) {
        if p in RefPoints(init, b, droneAltitude, safety) {
          var k :| 0 <= k < |init| && Qualifies(init[k], droneAltitude, safety) && p == RefPoint(init[k], b);
          assert obs[k] == init[k];
        }
      }
      if exists k :: 0 <= k < |obs| && Qualifies(obs[k], droneAltitude, safety) && p == RefPoint(obs[k], b) {
        var k :| 0 <= k < |obs| && Qualifies(obs[k], droneAltitude, safety) && p == RefPoint(obs[k], b);
        if k < |obs| - 1 {
          assert init[k] == obs[k];
        }
      }
    }
  }

  /** The number of qualifying obstacles. */
  function CountQualifying(obs: seq<Obstacle>, droneAltitude: real, safety: real): nat
    decreases |obs|
  {
    if obs == [] then 0
    else CountQualifying(obs[..|obs| - 1], droneAltitude, safety)
         + (if Qualifies(obs[|obs| - 1], droneAltitude, safety) then 1 else 0)
  }

  /** One reference point per qualifying obstacle. */
  lemma {:induction false} RefPointsCount(obs: seq<Obstacle>, b: Bounds, droneAltitude: real, safety: real)
    ensures |RefPoints(obs, b, droneAltitude, safety)| == CountQualifying(obs, droneAltitude, safety)
    decreases |obs|
  {
    if obs != [] {
      RefPointsCount(obs[..|obs| - 1], b, droneAltitude, safety);
    }
  }

  /**
   * Slice assignment grid[loN:hiN+1, loE:hiE+1] = 1 (line 33): the rectangle
   * becomes 1 and every other cell keeps its value.  On a grid without cells
   * the slice is empty.
   */
  method FillRect(grid: array2<int>, r: Rect)
    requires grid.Length0 > 0 && grid.Length1 > 0 ==>
               0 <= r.loN && r.hiN < grid.Length0 && 0 <= r.loE && r.hiE < grid.Length1
    modifies grid
    ensures forall i, j :: 0 <= i < grid.Length0 && 0 <= j < grid.Length1 ==>
              grid[i, j] == if InRect(r, i, j) then 1 else old(grid[i, j])
  {
    if grid.Length0 > 0 && grid.Length1 > 0 {
      forall i, j | r.loN <= i <= r.hiN && r.loE <= j <= r.hiE {
        grid[i, j] := 1;
      }
    }
  }

  /** Processing one more obstacle adds exactly the cells it marks. */
  lemma OccupiedStep(data: seq<Obstacle>, k: nat, b: Bounds, droneAltitude: real, safety: real, i: int, j: int)
    requires k < |data|
    ensures Occupied(data[..k + 1], b, droneAltitude, safety, i, j)
            == (Occupied(data[..k], b, droneAltitude, safety, i, j) || Marks(data[k], b, droneAltitude, safety, i, j))
  {
    assert data[..k + 1][..k] == data[..k];
  }

  /** Processing one more obstacle appends its reference point exactly when it qualifies. */
  lemma RefPointsStep(data: seq<Obstacle>, k: nat, b: Bounds, droneAltitude: real, safety: real)
    requires k < |data|
    ensures RefPoints(data[..k + 1], b, droneAltitude, safety)
            == RefPoints(data[..k], b, droneAltitude, safety)
               + (if Qualifies(data[k], droneAltitude, safety) then [RefPoint(data[k], b)] else [])
  {
    assert data[..k + 1][..k] == data[..k];
  }

  /** The grid holds 1 exactly on the cells the first k obstacles mark, and 0 elsewhere. */
  ghost predicate Rasterised(grid: array2<int>, data: seq<Obstacle>, k: nat, b: Bounds,
                             droneAltitude: real, safety: real)
    requires k <= |data|
    reads grid
  {
    forall i, j :: 0 <= i < grid.Length0 && 0 <= j < grid.Length1 ==>
      grid[i, j] == if Occupied(data[..k], b, droneAltitude, safety, i, j) then 1 else 0
  }

  /**
   * Lines 25-33, one pass of the obstacle loop: a qualifying obstacle fills
   * its clamped footprint, any other leaves the grid as it is.
   */
  method MarkObstacle(grid: array2<int>, data: seq<Obstacle>, k: nat, b: Bounds,
                      droneAltitude: real, safety: real)
    requires k < |data| && grid.Length0 == b.Rows() && grid.Length1 == b.Cols()
    requires Rasterised(grid, data, k, b, droneAltitude, safety)
    modifies grid
    ensures Rasterised(grid, data, k + 1, b, droneAltitude, safety)
  {
    var o := data[k];
    if o.alt + o.dAlt + safety > droneAltitude {
      FillRect(grid, Footprint(o, b, safety));
    }
    forall i, j | 0 <= i < grid.Length0 && 0 <= j < grid.Length1
      ensures grid[i, j] == if Occupied(data[..k + 1], b, droneAltitude, safety, i, j) then 1 else 0
    {
      OccupiedStep(data, k, b, droneAltitude, safety, i, j);
    }
  }

  /**
   * Lines 13-34: size the grid from the obstacles, mark the clamped inflated
   * footprint of every obstacle that reaches the flight altitude, and collect
   * one reference point per such obstacle.  Every cell ends up 0 or 1, and is
   * 1 exactly when some qualifying obstacle covers it.
   */
  method CreateGrid(data: seq<Obstacle>, droneAltitude: real, safety: real)
    returns (grid: array2<int>, points: seq<Point>, northMin: int, eastMin: int)
    requires |data| > 0
    requires SizesValid(data)
    ensures fresh(grid)
    ensures northMin == GridBounds(data).northMin && eastMin == GridBounds(data).eastMin
    ensures grid.Length0 == GridBounds(data).Rows() && grid.Length1 == GridBounds(data).Cols()
    ensures forall i, j :: 0 <= i < grid.Length0 && 0 <= j < grid.Length1 ==>
              grid[i, j] == if Occupied(data, GridBounds(data), droneAltitude, safety, i, j) then 1 else 0
    ensures points == RefPoints(data, GridBounds(data), droneAltitude, safety)
  {
    var b := GridBounds(data);
    northMin, eastMin := b.northMin, b.eastMin;
    grid := new int[b.Rows(), b.Cols()]((i, j) => 0);
    points := [];
    var k := 0;
    assert data[..0] == [];
    while k < |data|
      invariant 0 <= k <= |data|
      invariant grid.Length0 == b.Rows() && grid.Length1 == b.Cols()
      invariant Rasterised(grid, data, k, b, droneAltitude, safety)
      invariant points == RefPoints(data[..k], b, droneAltitude, safety)
    {
      var o := data[k];
      MarkObstacle(grid, data, k, b, droneAltitude, safety);
      RefPointsStep(data, k, b, droneAltitude, safety);
      if o.alt + o.dAlt + safety > droneAltitude {
        points := points + [RefPoint(o, b)];
      }
      k := k + 1;
    }
    assert data[..|data|] == data;
  }

  /**
   * One obstacle centred at (10, 10) with half-extents 2 and top 40, flown
   * at altitude 5 with margin 2: the grid spans 8..12 on both axes, its four
   * by four cells are all occupied (the inflated footprint is clamped to the
   * grid), and the single reference point is the centre relative to (8, 8).
   */
  lemma SingleObstacleScenario()
    ensures var data := [Obstacle(10.0, 10.0, 20.0, 2.0, 2.0, 20.0)];
            var b := GridBounds(data);
            b == Bounds(8, 12, 8, 12)
            && (forall i, j :: 0 <= i < 4 && 0 <= j < 4 ==> Occupied(data, b, 5.0, 2.0, i, j))
            && RefPoints(data, b, 5.0, 2.0) == [Point(2.0, 2.0)]
  {
    var data := [Obstacle(10.0, 10.0, 20.0, 2.0, 2.0, 20.0)];
    var b := GridBounds(data);
    assert NorthLows(data) == [8.0] && NorthHighs(data) == [12.0];
    assert EastLows(data) == [8.0] && EastHighs(data) == [12.0];
    assert b == Bounds(8, 12, 8, 12);
    assert Footprint(data[0], b, 2.0) == Rect(0, 3, 0, 3);
    assert data[..0] == [];
  }
}
