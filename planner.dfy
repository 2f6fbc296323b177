/**
 * find_path (lines 76-104): build the roadmap from the kept edges, snap the
 * start and goal to their nearest roadmap nodes, search between those, wrap
 * the node path with the original start and goal, and truncate every point
 * to integer grid coordinates.
 */
module Planner {
  import opened Geometry
  import opened Wrappers
  import opened LineOfSight
  import opened Roadmap
  import opened Search

  /** The planned path in grid cells and the cost of its roadmap part. */
  datatype Plan = Plan(path: seq<Cell>, cost: real)

  /**
   * NoNearbyNode: closest_point found no node within the sentinel distance
   * for the start or the goal; a_star then fails on the None it is handed
   * (set(None) for the start, the heuristic on None for the goal).
   * SearchFailed: a_star itself raised.
   */
  datatype PlanError = NoNearbyNode | SearchFailed(reason: SearchError)

  /** Lines 98-100: int() on both coordinates of every point, in order. */
  method TruncatePath(p: seq<Point>) returns (cells: seq<Cell>)
    ensures |cells| == |p|
    ensures forall i :: 0 <= i < |p| ==>
              cells[i].row as real <= p[i].north + 1.0 && p[i].north - 1.0 <= cells[i].row as real
              && cells[i].col as real <= p[i].east + 1.0 && p[i].east - 1.0 <= cells[i].col as real
    ensures forall i :: 0 <= i < |p| ==> cells[i] == TruncPoint(p[i])
  {
    cells := [];
    for i := 0 to |p|
      invariant |cells| == i
      invariant forall k :: 0 <= k < i ==> cells[k] == TruncPoint(p[k])
    {
      cells := cells + [TruncPoint(p[i])];
    }
  }

  /**
   * What a successful plan between roadmap nodes a and b is: either the
   * walk found from a to b framed by the two query points and truncated to
   * cells, with its cost, or the empty path of cost 0 when no walk from a
   * reaches b.
   */
  ghost predicate Wrapped(g: Graph, a: Point, b: Point, gridStart: Point, gridGoal: Point,
                          r: Result<Plan, PlanError>, route: seq<Point>)
    requires Valid(g)
  {
    (r.Ok? && r.value.path != [] ==>
       var p := r.value.path;
       |p| == |route| + 2 && |route| >= 2
       && p[0] == TruncPoint(gridStart) && p[|p| - 1] == TruncPoint(gridGoal)
       && (forall i :: 0 <= i < |route| ==> p[i + 1] == TruncPoint(route[i]))
       && IsWalk(g, route) && route[0] == a && route[|route| - 1] == b
       && (forall i, j :: 0 <= i < j < |route| ==> route[i] != route[j])
       && r.value.cost == PathCost(g, route))
    && (r.Ok? && r.value.path == [] ==>
          r.value.cost == 0.0
          && forall w :: IsWalk(g, w) && w[0] == a ==> w[|w| - 1] != b)
  }

  /**
   * Lines 92-104: search the roadmap between the snapped nodes a and b, wrap
   * a non-empty node route with the original query points and truncate.
   * a_star fails exactly when a and b coincide.
   */
  method SearchAndWrap(g: Graph, a: Point, b: Point, gridStart: Point, gridGoal: Point, dist: (Point, Point) -> real)
    returns (r: Result<Plan, PlanError>, ghost route: seq<Point>)
    requires Valid(g) && a in g.adj && b in g.adj
    ensures r.Err? <==> a == b
    ensures r.Err? ==> r.error == SearchFailed(MissingBranchEntry)
    ensures Wrapped(g, a, b, gridStart, gridGoal, r, route)
  {
    route := [];
    var search;
    ghost var enqueued;
    search, enqueued := AStar(g, dist, a, b);
    if search.Err? {
      return Err(SearchFailed(search.error)), route;
    }
    var p := search.value.path;
    route := p;
    if |p| > 0 {
      p := [gridStart] + p + [gridGoal];
      assert forall i :: 0 <= i < |route| ==> p[i + 1] == route[i];
    }
    var cells := TruncatePath(p);
    r := Ok(Plan(cells, search.value.cost));
  }

  /**
   * closest_point's result for query point q on g: None exactly when every
   * node is at least the sentinel away, otherwise a node of least distance
   * and the first such node in node order.
   */
  ghost predicate Nearest(g: Graph, q: Point, r: Option<Point>, dist: (Point, Point) -> real)
  {
    (r.None? <==> forall j :: 0 <= j < |g.nodes| ==> dist(q, g.nodes[j]) >= Sentinel)
    && (r.Some? ==> r.value in g.adj && forall j :: 0 <= j < |g.nodes| ==> dist(q, r.value) <= dist(q, g.nodes[j]))
    && (r.Some? ==> exists k :: 0 <= k < |g.nodes| && g.nodes[k] == r.value
                                && forall j :: 0 <= j < k ==> dist(q, g.nodes[j]) > dist(q, r.value))
  }

  /**
   * Lines 80-89: build the roadmap of the edges, nodes in order of first
   * appearance, and snap both query points to their nearest nodes.
   */
  method Snap(edges: seq<Edge>, gridStart: Point, gridGoal: Point, dist: (Point, Point) -> real)
    returns (g: Graph, s: Option<Point>, t: Option<Point>)
    ensures Valid(g) && BuiltFrom(g, edges, dist) && g.nodes == FirstAppearance(edges)
    ensures Nearest(g, gridStart, s, dist) && Nearest(g, gridGoal, t, dist)
  {
    g := BuildGraph(edges, dist);
    assert forall n :: n in g.adj <==> n in g.nodes;
    s := ClosestPoint(g, gridStart, dist);
    t := ClosestPoint(g, gridGoal, dist);
  }

  /**
   * Lines 76-104.  dist(a, b) stands for the Euclidean norm of b - a; it
   * weighs the edges, ranks the nodes for snapping and serves as a_star's
   * heuristic.  The ghost results expose the roadmap built, the two snapped
   * nodes and the node route found.
   *
   * The roadmap is the graph of the edges, nodes in order of first
   * appearance.  A query point snaps to nothing exactly when every node is
   * at least the sentinel distance away, and otherwise to the first nearest
   * node in that order.  The plan fails exactly when a
   * query point snaps to nothing or both snap to the same node.  A non-empty
   * plan is the truncated start, the truncated route (a duplicate-free walk
   * of the roadmap between the snapped nodes, whose weight sum is the
   * reported cost), and the truncated goal.  An empty plan means no walk
   * joins the snapped nodes.
   */
  method FindPath(edges: seq<Edge>, gridStart: Point, gridGoal: Point, dist: (Point, Point) -> real)
    returns (r: Result<Plan, PlanError>, ghost roadmap: Graph, ghost s: Option<Point>, ghost t: Option<Point>,
             ghost route: seq<Point>)
    ensures Valid(roadmap) && BuiltFrom(roadmap, edges, dist) && roadmap.nodes == FirstAppearance(edges)
    ensures Nearest(roadmap, gridStart, s, dist) && Nearest(roadmap, gridGoal, t, dist)
    ensures r.Err? <==> s.None? || t.None? || s == t
    ensures r == Err(NoNearbyNode) <==> s.None? || t.None?
    ensures r.Ok? ==> s.Some? && t.Some? && Valid(roadmap) && Wrapped(roadmap, s.value, t.value, gridStart, gridGoal, r, route)
  {
    var g, startClosest, goalClosest := Snap(edges, gridStart, gridGoal, dist);
    roadmap, s, t, route := g, startClosest, goalClosest, [];
    if startClosest.None? || goalClosest.None? {
      return Err(NoNearbyNode), roadmap, s, t, route;
    }
    r, route := SearchAndWrap(g, startClosest.value, goalClosest.value, gridStart, gridGoal, dist);
  }
}
