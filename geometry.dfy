/**
 * Planar coordinates of the roadmap and the numeric conversions the planner
 * applies to them: Python's int() (truncation toward zero) and numpy's clip.
 */
module Geometry {

  /** A grid-local coordinate pair (north, east); also the identity of a roadmap node. */
  datatype Point = Point(north: real, east: real)

  /** An integer grid cell (row, column), as produced by line rasterisation. */
  datatype Cell = Cell(row: int, col: int)

  /** Python's int() on a float: truncation toward zero. */
  function Trunc(x: real): (k: int)
    ensures 0.0 <= x ==> k as real <= x < k as real + 1.0
    ensures x < 0.0 ==> k as real - 1.0 < x <= k as real
    ensures (k < 0) == (x <= -1.0)
  {
    if x >= 0.0 then x.Floor else -((-x).Floor)
  }

  /** int() applied to both coordinates of a point. */
  function TruncPoint(p: Point): (c: Cell)
    ensures 0.0 <= p.north ==> c.row as real <= p.north < c.row as real + 1.0
    ensures p.north < 0.0 ==> c.row as real - 1.0 < p.north <= c.row as real
    ensures 0.0 <= p.east ==> c.col as real <= p.east < c.col as real + 1.0
    ensures p.east < 0.0 ==> c.col as real - 1.0 < p.east <= c.col as real
  {
    Cell(Trunc(p.north), Trunc(p.east))
  }

  /** numpy's clip(x, lo, hi): min(max(x, lo), hi), which yields hi whenever lo > hi. */
  function Clip(x: real, lo: real, hi: real): (y: real)
    ensures lo <= hi ==> lo <= y <= hi
    ensures lo <= hi && lo <= x <= hi ==> y == x
    ensures lo <= hi && x < lo ==> y == lo
    ensures lo <= hi && hi < x ==> y == hi
    ensures hi < lo ==> y == hi
  {
    var m := if x < lo then lo else x;
    if m > hi then hi else m
  }

  /** np.ceil on a real. */
  function Ceil(x: real): (k: int)
    ensures x <= k as real < x + 1.0
  {
    -((-x).Floor)
  }

  /** The least element of a non-empty sequence (np.min). */
  function MinOf(xs: seq<real>): (m: real)
    requires |xs| > 0
    ensures m in xs
    ensures forall i :: 0 <= i < |xs| ==> m <= xs[i]
  {
    if |xs| == 1 then xs[0]
    else
      var rest := MinOf(xs[1..]);
      if xs[0] <= rest then xs[0] else rest
  }

  /** The greatest element of a non-empty sequence (np.max). */
  function MaxOf(xs: seq<real>): (m: real)
    requires |xs| > 0
    ensures m in xs
    ensures forall i :: 0 <= i < |xs| ==> xs[i] <= m
  {
    if |xs| == 1 then xs[0]
    else
      var rest := MaxOf(xs[1..]);
      if xs[0] >= rest then xs[0] else rest
  }
}
