/**
 * The roadmap graph that find_path assembles from the kept edges (lines
 * 80-85), and the nearest-node scan closest_point (lines 64-73).  The graph
 * is an undirected weighted graph keyed by node coordinates: nodes in
 * insertion order, for each node its neighbours in insertion order, and one
 * weight per adjacent ordered pair.
 */
module Roadmap {
  import opened Geometry
  import opened Wrappers
  import opened LineOfSight

  datatype Graph = Graph(nodes: seq<Point>, adj: map<Point, seq<Point>>, weight: map<(Point, Point), real>)

  /** Is m a neighbour of n? */
  predicate Adjacent(g: Graph, n: Point, m: Point)
  {
    n in g.adj && m in g.adj[n]
  }

  /** The listed nodes are exactly the keys of the adjacency map, and every neighbour is a node. */
  ghost predicate NodesWellFormed(g: Graph)
  {
    (forall n :: n in g.adj <==> n in g.nodes)
    && (forall n, m :: Adjacent(g, n, m) ==> m in g.adj)
  }

  /** Well-formedness of an undirected graph whose edges all carry a weight. */
  ghost predicate Valid(g: Graph)
  {
    NodesWellFormed(g)
    && (forall n, m :: Adjacent(g, n, m) ==> Adjacent(g, m, n) && (n, m) in g.weight)
  }

  function EmptyGraph(): (g: Graph)
    ensures Valid(g) && g.nodes == []
  {
    Graph([], map[], map[])
  }

  /** The node order after adding p: p is appended once if new, and the order is unchanged otherwise. */
  function Register(order: seq<Point>, p: Point): (r: seq<Point>)
    ensures |r| >= |order| && r[..|order|] == order
    ensures |r| == if p in order then |order| else |order| + 1
    ensures forall n :: n in r <==> n in order || n == p
    ensures (forall i, j :: 0 <= i < j < |order| ==> order[i] != order[j])
            ==> forall i, j :: 0 <= i < j < |r| ==> r[i] != r[j]
  {
    if p in order then order else order + [p]
  }

  /**
   * The node order of the graph of an edge list: endpoints in order of first
   * appearance, p1 before p2 within an edge.  It lists every endpoint once.
   */
  function FirstAppearance(edges: seq<Edge>): (r: seq<Point>)
    ensures forall n :: n in r <==> n in Endpoints(edges)
    ensures forall i, j :: 0 <= i < j < |r| ==> r[i] != r[j]
    decreases |edges|
  {
    if edges == [] then []
    else
      var e := edges[|edges| - 1];
      Register(Register(FirstAppearance(edges[..|edges| - 1]), e.p1), e.p2)
  }

  /** Add a node with no neighbours unless it is already present. */
  function AddNode(g: Graph, a: Point): (g': Graph)
    requires NodesWellFormed(g)
    ensures NodesWellFormed(g') && a in g'.adj
    ensures g'.nodes == Register(g.nodes, a)
    ensures |g'.nodes| >= |g.nodes| && g'.nodes[..|g.nodes|] == g.nodes
    ensures forall n :: n in g'.nodes <==> n in g.nodes || n == a
    ensures forall n, m :: Adjacent(g', n, m) <==> Adjacent(g, n, m)
    ensures g'.weight == g.weight
  {
    if a in g.adj then g
    else
      var g' := Graph(g.nodes + [a], g.adj[a := []], g.weight);
      assert forall n, m | Adjacent(g', n, m) :: Adjacent(g, n, m) by {
        forall n, m | Adjacent(g', n, m) ensures Adjacent(g, n, m) {
          assert n != a;
        }
      }
      g'
  }

  /** Append b to a's neighbour list unless it is already there. */
  function AddNeighbour(g: Graph, a: Point, b: Point): (g': Graph)
    requires NodesWellFormed(g) && a in g.adj && b in g.adj
    ensures NodesWellFormed(g')
    ensures g'.nodes == g.nodes && g'.weight == g.weight
    ensures forall n, m :: Adjacent(g', n, m) <==> Adjacent(g, n, m) || (n == a && m == b)
  {
    if b in g.adj[a] then g
    else
      var g' := Graph(g.nodes, g.adj[a := g.adj[a] + [b]], g.weight);
      assert forall n, m | Adjacent(g', n, m) :: Adjacent(g, n, m) || (n == a && m == b) by {
        forall n, m | Adjacent(g', n, m) ensures Adjacent(g, n, m) || (n == a && m == b) {
          if n == a && m != b {
            assert m in g.adj[a];
          }
        }
      }
      g'
  }

  /** The unweighted part of add_edge(a, b): both endpoints present, each a neighbour of the other. */
  function Connect(g: Graph, a: Point, b: Point): (g': Graph)
    requires NodesWellFormed(g)
    ensures NodesWellFormed(g') && g'.weight == g.weight
    ensures g'.nodes == Register(Register(g.nodes, a), b)
    ensures |g'.nodes| >= |g.nodes| && g'.nodes[..|g.nodes|] == g.nodes
    ensures forall n :: n in g'.nodes <==> n in g.nodes || n == a || n == b
    ensures forall n, m :: Adjacent(g', n, m) <==> Adjacent(g, n, m) || (n == a && m == b) || (n == b && m == a)
  {
    var g0 := AddNode(g, a);
    var g1 := AddNode(g0, b);
    assert g1.nodes[..|g.nodes|] == g.nodes by {
      assert g1.nodes[..|g0.nodes|] == g0.nodes;
      assert g1.nodes[..|g.nodes|] == g0.nodes[..|g.nodes|];
    }
    AddNeighbour(AddNeighbour(g1, a, b), b, a)
  }

  /**
   * add_edge(a, b, weight=w): new endpoints are appended to the node order,
   * each endpoint gets the other as a neighbour unless it already has it, and
   * the weight of the pair is (re)written in both orientations.
   */
  function AddEdge(g: Graph, a: Point, b: Point, w: real): (g': Graph)
    requires Valid(g)
    ensures Valid(g')
    ensures g'.nodes == Register(Register(g.nodes, a), b)
    ensures |g'.nodes| >= |g.nodes| && g'.nodes[..|g.nodes|] == g.nodes
    ensures forall n :: n in g'.nodes <==> n in g.nodes || n == a || n == b
    ensures forall n, m :: Adjacent(g', n, m) <==> Adjacent(g, n, m) || (n == a && m == b) || (n == b && m == a)
    ensures g'.weight == g.weight[(a, b) := w][(b, a) := w]
  {
    var c := Connect(g, a, b);
    var g' := Graph(c.nodes, c.adj, g.weight[(a, b) := w][(b, a) := w]);
    assert forall n, m | Adjacent(g', n, m) :: Adjacent(g', m, n) && (n, m) in g'.weight by {
      forall n, m | Adjacent(g', n, m) ensures Adjacent(g', m, n) && (n, m) in g'.weight {
        assert Adjacent(c, n, m);
        assert Adjacent(c, m, n);
      }
    }
    g'
  }

  /** The endpoints of a list of edges. */
  function Endpoints(edges: seq<Edge>): set<Point>
    decreases |edges|
  {
    if edges == [] then {}
    else Endpoints(edges[..|edges| - 1]) + {edges[|edges| - 1].p1, edges[|edges| - 1].p2}
  }

  /** The ordered pairs joined by some edge of the list, in either orientation. */
  function Links(edges: seq<Edge>): set<(Point, Point)>
    decreases |edges|
  {
    if edges == [] then {}
    else
      var e := edges[|edges| - 1];
      Links(edges[..|edges| - 1]) + {(e.p1, e.p2), (e.p2, e.p1)}
  }

  /** Does a weight stem from distance between the two endpoints, in either orientation? */
  predicate WeightFromDistance(w: real, n: Point, m: Point, dist: (Point, Point) -> real)
  {
    w == dist(n, m) || w == dist(m, n)
  }

  /**
   * g is the graph of the edge list: its nodes, its adjacency and its
   * weights all stem from the edges.
   */
  ghost predicate BuiltFrom(g: Graph, edges: seq<Edge>, dist: (Point, Point) -> real)
  {
    (forall n :: n in g.nodes <==> n in Endpoints(edges))
    && (forall n, m :: Adjacent(g, n, m) <==> (n, m) in Links(edges))
    && (forall n, m :: (n, m) in g.weight ==>
          (n, m) in Links(edges) && WeightFromDistance(g.weight[(n, m)], n, m, dist))
  }

  lemma LinksSnoc(edges: seq<Edge>, i: nat)
    requires i < |edges|
    ensures Links(edges[..i + 1]) == Links(edges[..i]) + {(edges[i].p1, edges[i].p2), (edges[i].p2, edges[i].p1)}
    ensures Endpoints(edges[..i + 1]) == Endpoints(edges[..i]) + {edges[i].p1, edges[i].p2}
  {
    assert edges[..i + 1][..i] == edges[..i];
  }

  lemma FirstAppearanceSnoc(edges: seq<Edge>, i: nat)
    requires i < |edges|
    ensures FirstAppearance(edges[..i + 1]) == Register(Register(FirstAppearance(edges[..i]), edges[i].p1), edges[i].p2)
  {
    assert edges[..i + 1][..i] == edges[..i];
  }

  /** The node half of BuildStep: the order of first appearance grows as add_edge registers the endpoints. */
  lemma BuildNodesStep(prevNodes: seq<Point>, nodes: seq<Point>, edges: seq<Edge>, i: nat)
    requires i < |edges| && prevNodes == FirstAppearance(edges[..i])
    requires nodes == Register(Register(prevNodes, edges[i].p1), edges[i].p2)
    ensures nodes == FirstAppearance(edges[..i + 1])
    ensures forall n :: n in nodes <==> n in Endpoints(edges[..i + 1])
  {
    FirstAppearanceSnoc(edges, i);
  }

  /** The adjacency half of BuildStep. */
  lemma BuildAdjacencyStep(prev: Graph, g: Graph, edges: seq<Edge>, i: nat)
    requires i < |edges| && forall n, m :: Adjacent(prev, n, m) <==> (n, m) in Links(edges[..i])
    requires var p1, p2 := edges[i].p1, edges[i].p2;
             forall n, m :: Adjacent(g, n, m) <==> Adjacent(prev, n, m) || (n == p1 && m == p2) || (n == p2 && m == p1)
    ensures forall n, m :: Adjacent(g, n, m) <==> (n, m) in Links(edges[..i + 1])
  {
    LinksSnoc(edges, i);
  }

  /** The weight half of BuildStep: add_edge (re)writes the new pair's weight from the distance. */
  lemma BuildWeightStep(prev: Graph, g: Graph, edges: seq<Edge>, i: nat, dist: (Point, Point) -> real)
    requires i < |edges|
    requires forall n, m :: (n, m) in prev.weight ==>
               (n, m) in Links(edges[..i]) && WeightFromDistance(prev.weight[(n, m)], n, m, dist)
    requires var p1, p2 := edges[i].p1, edges[i].p2;
             g.weight == prev.weight[(p1, p2) := dist(p1, p2)][(p2, p1) := dist(p1, p2)]
    ensures forall n, m :: (n, m) in g.weight ==>
              (n, m) in Links(edges[..i + 1]) && WeightFromDistance(g.weight[(n, m)], n, m, dist)
  {
    var p1, p2 := edges[i].p1, edges[i].p2;
    LinksSnoc(edges, i);
    forall n, m | (n, m) in g.weight
      ensures (n, m) in Links(edges[..i + 1]) && WeightFromDistance(g.weight[(n, m)], n, m, dist)
    {
      if (n, m) != (p1, p2) && (n, m) != (p2, p1) {
        assert (n, m) in prev.weight;
      }
    }
  }

  /**
   * Adding the next edge of the list (any g related to prev as AddEdge
   * promises) keeps the graph that of the longer prefix.
   */
  lemma BuildStep(prev: Graph, g: Graph, edges: seq<Edge>, i: nat, dist: (Point, Point) -> real)
    requires i < |edges| && BuiltFrom(prev, edges[..i], dist)
    requires var p1, p2 := edges[i].p1, edges[i].p2;
             (forall n :: n in g.nodes <==> n in prev.nodes || n == p1 || n == p2)
             && (forall n, m :: Adjacent(g, n, m) <==> Adjacent(prev, n, m) || (n == p1 && m == p2) || (n == p2 && m == p1))
             && g.weight == prev.weight[(p1, p2) := dist(p1, p2)][(p2, p1) := dist(p1, p2)]
    ensures BuiltFrom(g, edges[..i + 1], dist)
  {
    LinksSnoc(edges, i);
    BuildAdjacencyStep(prev, g, edges, i);
    BuildWeightStep(prev, g, edges, i, dist);
  }

  /**
   * Lines 80-85: the graph of the kept edges.  Its nodes are exactly their
   * endpoints, each once, in order of first appearance; two nodes are
   * adjacent exactly when an edge joins them, and every weight is the
   * distance between the pair it labels.
   */
  method BuildGraph(edges: seq<Edge>, dist: (Point, Point) -> real) returns (g: Graph)
    ensures Valid(g) && BuiltFrom(g, edges, dist)
    ensures g.nodes == FirstAppearance(edges)
    ensures forall n :: n in g.nodes <==> n in Endpoints(edges)
    ensures forall n, m :: Adjacent(g, n, m) <==> (n, m) in Links(edges)
    ensures forall n, m :: (n, m) in g.weight ==>
              (n, m) in Links(edges) && WeightFromDistance(g.weight[(n, m)], n, m, dist)
  {
    g := EmptyGraph();
    for i := 0 to |edges|
      invariant Valid(g) && BuiltFrom(g, edges[..i], dist) && g.nodes == FirstAppearance(edges[..i])
    {
      var next := AddEdge(g, edges[i].p1, edges[i].p2, dist(edges[i].p1, edges[i].p2));
      BuildNodesStep(g.nodes, next.nodes, edges, i);
      BuildStep(g, next, edges, i, dist);
      g := next;
    }
    assert edges[..|edges|] == edges;
  }

  /** The distance bound closest_point starts from (line 67). */
  const Sentinel: real := 100000.0

  /**
   * Lines 64-73: a linear scan over the nodes in insertion order keeping the
   * first strictly nearer node.  The result is None exactly when no node is
   * nearer than the sentinel; otherwise it is a node of least distance, and
   * the first such node in node order.
   */
  method ClosestPoint(g: Graph, q: Point, dist: (Point, Point) -> real) returns (r: Option<Point>)
    ensures r.None? <==> forall j :: 0 <= j < |g.nodes| ==> dist(q, g.nodes[j]) >= Sentinel
    ensures r.Some? ==> r.value in g.nodes && dist(q, r.value) < Sentinel
    ensures r.Some? ==> forall j :: 0 <= j < |g.nodes| ==> dist(q, r.value) <= dist(q, g.nodes[j])
    ensures r.Some? ==> exists k :: 0 <= k < |g.nodes| && g.nodes[k] == r.value
                                    && forall j :: 0 <= j < k ==> dist(q, g.nodes[j]) > dist(q, r.value)
  {
    r := None;
    var best := Sentinel;
    ghost var at := 0;
    for i := 0 to |g.nodes|
      invariant r.None? ==> best == Sentinel && forall j :: 0 <= j < i ==> dist(q, g.nodes[j]) >= Sentinel
      invariant r.Some? ==> 0 <= at < i && g.nodes[at] == r.value && best == dist(q, r.value) < Sentinel
      invariant r.Some? ==> forall j :: 0 <= j < i ==> best <= dist(q, g.nodes[j])
      invariant r.Some? ==> forall j :: 0 <= j < at ==> dist(q, g.nodes[j]) > best
    {
      var z := g.nodes[i];
      var d := dist(q, z);
      if d < best {
        r := Some(z);
        best := d;
        at := i;
      }
    }
  }

  /** A walk: a non-empty node sequence whose consecutive nodes are adjacent. */
  predicate IsWalk(g: Graph, p: seq<Point>)
  {
    |p| > 0 && p[0] in g.adj && forall i :: 0 <= i < |p| - 1 ==> Adjacent(g, p[i], p[i + 1])
  }

  /** The sum of the edge weights along a walk. */
  function PathCost(g: Graph, p: seq<Point>): real
    requires Valid(g) && IsWalk(g, p)
    decreases |p|
  {
    if |p| == 1 then 0.0
    else
      assert Adjacent(g, p[0], p[1]);
      g.weight[(p[0], p[1])] + PathCost(g, p[1..])
  }

  /** Prepending a node adjacent to the head extends a walk by one edge and its cost by that edge's weight. */
  lemma WalkCons(g: Graph, p: Point, w: seq<Point>)
    requires Valid(g) && IsWalk(g, w) && Adjacent(g, p, w[0])
    ensures IsWalk(g, [p] + w)
    ensures PathCost(g, [p] + w) == g.weight[(p, w[0])] + PathCost(g, w)
  {
    var pw := [p] + w;
    assert pw[1..] == w;
    forall i | 0 <= i < |pw| - 1 ensures Adjacent(g, pw[i], pw[i + 1]) {
      if i > 0 {
        assert pw[i] == w[i - 1] && pw[i + 1] == w[i];
      }
    }
  }
}
