/**
 * a_star (lines 107-153): best-first search over the roadmap with a
 * priority queue, a visited set and a branch map from each discovered node to
 * (cost, predecessor).  A node's cost is fixed when it is first discovered and
 * never relaxed; the start node always counts as cost 0 when popped, and it
 * is not marked visited at the outset.
 */
module Search {
  import opened Geometry
  import opened Wrappers
  import opened Roadmap

  /** A queue entry (priority, node). */
  datatype Entry = Entry(priority: real, node: Point)

  /** A branch entry (cost from the start, predecessor). */
  datatype Discovery = Discovery(cost: real, pred: Point)

  /** The search result: the node path from start to goal (empty when none) and its cost. */
  datatype Route = Route(path: seq<Point>, cost: real)

  /**
   * The exceptions a_star raises: KeyError on graph[current] for a start node
   * outside the graph (line 130), and KeyError on branch[goal] when the goal
   * is the start, which never gets a branch entry before it is popped (line 143).
   */
  datatype SearchError = UnknownNode | MissingBranchEntry

  /**
   * PriorityQueue.get: the position of an entry of least priority.  Ties go
   * to the earliest entry (Python compares the node tuples instead).
   */
  function MinIndex(q: seq<Entry>): (i: nat)
    requires |q| > 0
    ensures i < |q|
    ensures forall j :: 0 <= j < |q| ==> q[i].priority <= q[j].priority
    ensures forall j :: 0 <= j < i ==> q[j].priority > q[i].priority
    decreases |q|
  {
    if |q| == 1 then 0
    else
      var k := MinIndex(q[..|q| - 1]);
      if q[|q| - 1].priority < q[k].priority then |q| - 1 else k
  }

  /** Does some queue entry hold node n? */
  ghost predicate InQueue(q: seq<Entry>, n: Point)
  {
    exists j :: 0 <= j < |q| && q[j].node == n
  }

  function Reverse<T>(s: seq<T>): (r: seq<T>)
    ensures |r| == |s|
    ensures forall i :: 0 <= i < |s| ==> r[i] == s[|s| - 1 - i]
    decreases |s|
  {
    if s == [] then [] else [s[|s| - 1]] + Reverse(s[..|s| - 1])
  }

  lemma ReverseSnoc<T>(s: seq<T>, x: T)
    ensures Reverse(s + [x]) == [x] + Reverse(s)
  {
    assert forall i :: 0 <= i < |s| + 1 ==> Reverse(s + [x])[i] == ([x] + Reverse(s))[i];
  }

  /**
   * The cost a_star uses for a popped node (lines 120-123): 0 for the start,
   * even when the start has been rediscovered and holds a branch entry of its
   * own, otherwise the cost recorded when the node was discovered.
   */
  function CostOf(branch: map<Point, Discovery>, start: Point, n: Point): real
    requires n == start || n in branch
  {
    if n == start then 0.0 else branch[n].cost
  }

  /**
   * The branch entry of n is sound: its predecessor is the start or was
   * discovered strictly earlier, the predecessor is adjacent to n, and the
   * cost is the predecessor's cost plus the weight of the joining edge.
   */
  ghost predicate WellDiscovered(g: Graph, branch: map<Point, Discovery>, time: map<Point, nat>,
                                 start: Point, n: Point)
    requires Valid(g) && n in branch && n in time
  {
    var d := branch[n];
    (d.pred == start || (d.pred in branch && d.pred in time && time[d.pred] < time[n]))
    && Adjacent(g, d.pred, n)
    && d.cost == CostOf(branch, start, d.pred) + g.weight[(d.pred, n)]
  }

  /**
   * Lines 130-139: relax nothing, discover everything.  Every neighbour of
   * current ends up visited; those not visited before get a branch entry
   * (current's cost plus the edge weight, predecessor current) and one queue
   * entry each; existing entries are never overwritten.
   */
  method Expand(g: Graph, h: (Point, Point) -> real, goal: Point, current: Point, currentCost: real,
                visited: set<Point>, branch: map<Point, Discovery>, queue: seq<Entry>)
    returns (visited': set<Point>, branch': map<Point, Discovery>, queue': seq<Entry>, ghost added: seq<Point>)
    requires Valid(g) && current in g.adj && branch.Keys == visited
    ensures branch'.Keys == visited'
    ensures forall x :: x in visited' <==> x in visited || x in g.adj[current]
    ensures forall k :: k in branch ==> branch'[k] == branch[k]
    ensures forall k :: k in added <==> k in visited' && k !in visited
    ensures forall i, j :: 0 <= i < j < |added| ==> added[i] != added[j]
    ensures forall k :: k in added ==>
              Adjacent(g, current, k) && branch'[k] == Discovery(currentCost + g.weight[(current, k)], current)
    ensures |queue'| == |queue| + |added| && queue'[..|queue|] == queue
    ensures forall i :: 0 <= i < |added| ==>
              queue'[|queue| + i] == Entry(branch'[added[i]].cost + h(added[i], goal), added[i])
  {
    var nbrs := g.adj[current];
    visited', branch', queue', added := visited, branch, queue, [];
    for k := 0 to |nbrs|
      invariant branch'.Keys == visited'
      invariant forall x :: x in visited' <==> x in visited || x in nbrs[..k]
      invariant forall x :: x in branch ==> branch'[x] == branch[x]
      invariant forall x :: x in added <==> x in visited' && x !in visited
      invariant forall i, j :: 0 <= i < j < |added| ==> added[i] != added[j]
      invariant forall x :: x in added ==>
                  Adjacent(g, current, x) && branch'[x] == Discovery(currentCost + g.weight[(current, x)], current)
      invariant |queue'| == |queue| + |added| && queue'[..|queue|] == queue
      invariant forall i :: 0 <= i < |added| ==>
                  queue'[|queue| + i] == Entry(branch'[added[i]].cost + h(added[i], goal), added[i])
    {
      var next := nbrs[k];
      assert Adjacent(g, current, next);
      var cost := g.weight[(current, next)];
      var branchCost := currentCost + cost;
      var queueCost := branchCost + h(next, goal);
      if next !in visited' {
        visited' := visited' + {next};
        branch' := branch'[next := Discovery(branchCost, current)];
        queue' := queue' + [Entry(queueCost, next)];
        added := added + [next];
      }
      assert nbrs[..k + 1] == nbrs[..k] + [next];
    }
    assert nbrs[..|nbrs|] == nbrs;
  }

  lemma InQueueAfterPop(q: seq<Entry>, i: nat, n: Point)
    requires i < |q| && InQueue(q, n) && q[i].node != n
    ensures InQueue(q[..i] + q[i + 1..], n)
  {
    var j :| 0 <= j < |q| && q[j].node == n;
    var q' := q[..i] + q[i + 1..];
    if j < i {
      assert q'[j] == q[j];
    } else {
      assert q'[j - 1] == q[j];
    }
  }

  lemma InQueueExtended(q: seq<Entry>, q': seq<Entry>, n: Point)
    requires InQueue(q, n) && |q| <= |q'| && q'[..|q|] == q
    ensures InQueue(q', n)
  {
    var j :| 0 <= j < |q| && q[j].node == n;
    assert q'[j] == q[j];
  }

  /** Growing the visited set inside a finite node set shrinks what is left to visit. */
  lemma UnvisitedShrinks(nodes: set<Point>, a: set<Point>, b: set<Point>)
    requires a <= b <= nodes && a != b
    ensures |nodes - b| < |nodes - a|
  {
    var x :| x in b && x !in a;
    assert nodes - b <= (nodes - a) - {x};
    assert |(nodes - a) - {x}| == |nodes - a| - 1;
    SubsetCard(nodes - b, (nodes - a) - {x});
  }

  lemma SubsetCard(a: set<Point>, b: set<Point>)
    requires a <= b
    ensures |a| <= |b|
  {
    assert b == a + (b - a);
  }

  /** A set that contains every neighbour of its members contains every node a walk from it reaches. */
  lemma {:induction false} WalkStaysInside(g: Graph, s: set<Point>, p: seq<Point>)
    requires Valid(g) && IsWalk(g, p) && p[0] in s
    requires forall c, m :: c in s && Adjacent(g, c, m) ==> m in s
    ensures p[|p| - 1] in s
    decreases |p|
  {
    if |p| > 1 {
      assert Adjacent(g, p[0], p[1]);
      var tail := p[1..];
      assert IsWalk(g, tail) by {
        assert tail[0] == p[1];
        forall i | 0 <= i < |tail| - 1 ensures Adjacent(g, tail[i], tail[i + 1]) {
          assert Adjacent(g, p[i + 1], p[i + 2]);
        }
      }
      WalkStaysInside(g, s, tail);
    }
  }

  /**
   * A partial predecessor chain rev = [goal, ..., n] followed back from the
   * goal: all discovered, none the start, pairwise distinct, discovered ever
   * earlier towards n, forming a walk once reversed, whose cost plus n's cost
   * is the goal's cost.
   */
  ghost predicate Chain(g: Graph, branch: map<Point, Discovery>, time: map<Point, nat>,
                        start: Point, goal: Point, rev: seq<Point>, pathCost: real)
    requires Valid(g)
  {
    ChainOrder(branch, time, start, goal, rev) && ChainWalk(g, branch, rev, pathCost)
  }

  /** The bookkeeping half of Chain: discovered, not the start, distinct, ever earlier. */
  ghost predicate ChainOrder(branch: map<Point, Discovery>, time: map<Point, nat>,
                             start: Point, goal: Point, rev: seq<Point>)
  {
    |rev| >= 1 && rev[0] == goal
    && (forall k :: 0 <= k < |rev| ==> rev[k] in branch && rev[k] in time && rev[k] != start)
    && (forall k :: 0 <= k < |rev| - 1 ==> time[rev[k]] > time[rev[|rev| - 1]])
    && (forall k, l :: 0 <= k < l < |rev| ==> rev[k] != rev[l])
  }

  /** The graph half of Chain: reversed, a walk whose cost plus the last node's cost is pathCost. */
  ghost predicate ChainWalk(g: Graph, branch: map<Point, Discovery>, rev: seq<Point>, pathCost: real)
    requires Valid(g)
  {
    |rev| >= 1 && rev[|rev| - 1] in branch
    && IsWalk(g, Reverse(rev)) && branch[rev[|rev| - 1]].cost + PathCost(g, Reverse(rev)) == pathCost
  }

  lemma ChainOrderStep(branch: map<Point, Discovery>, time: map<Point, nat>,
                       start: Point, goal: Point, rev: seq<Point>, p: Point)
    requires ChainOrder(branch, time, start, goal, rev)
    requires p in branch && p in time && p != start && time[p] < time[rev[|rev| - 1]]
    ensures ChainOrder(branch, time, start, goal, rev + [p])
  {
    var rev' := rev + [p];
    assert forall k :: 0 <= k < |rev| ==> rev'[k] == rev[k];
  }

  lemma ChainWalkStep(g: Graph, branch: map<Point, Discovery>, rev: seq<Point>, pathCost: real, p: Point)
    requires Valid(g) && ChainWalk(g, branch, rev, pathCost) && p in branch
    requires Adjacent(g, p, rev[|rev| - 1])
    requires branch[rev[|rev| - 1]].cost == branch[p].cost + g.weight[(p, rev[|rev| - 1])]
    ensures ChainWalk(g, branch, rev + [p], pathCost)
  {
    var w := Reverse(rev);
    assert w[0] == rev[|rev| - 1];
    ReverseSnoc(rev, p);
    WalkCons(g, p, w);
  }

  /** Following one more predecessor (not the start) extends the chain. */
  lemma ChainStep(g: Graph, branch: map<Point, Discovery>, time: map<Point, nat>,
                  start: Point, goal: Point, rev: seq<Point>, pathCost: real)
    requires Valid(g) && branch.Keys == time.Keys
    requires forall n :: n in branch ==> WellDiscovered(g, branch, time, start, n)
    requires Chain(g, branch, time, start, goal, rev, pathCost)
    requires branch[rev[|rev| - 1]].pred != start
    ensures Chain(g, branch, time, start, goal, rev + [branch[rev[|rev| - 1]].pred], pathCost)
  {
    var n := rev[|rev| - 1];
    var p := branch[n].pred;
    assert WellDiscovered(g, branch, time, start, n);
    ChainOrderStep(branch, time, start, goal, rev, p);
    ChainWalkStep(g, branch, rev, pathCost, p);
  }

  /** Closing a chain with the start gives a walk from the start to the goal of cost pathCost. */
  lemma ChainCloseWalk(g: Graph, branch: map<Point, Discovery>, rev: seq<Point>, pathCost: real, start: Point)
    requires Valid(g) && ChainWalk(g, branch, rev, pathCost)
    requires Adjacent(g, start, rev[|rev| - 1])
    requires branch[rev[|rev| - 1]].cost == 0.0 + g.weight[(start, rev[|rev| - 1])]
    ensures var path := Reverse(rev + [start]);
            |path| >= 2 && path[0] == start && path[|path| - 1] == rev[0] && IsWalk(g, path)
            && pathCost == PathCost(g, path)
  {
    var tail := Reverse(rev);
    assert tail[0] == rev[|rev| - 1];
    ReverseSnoc(rev, start);
    WalkCons(g, start, tail);
  }

  /** Closing a duplicate-free chain that avoids the start with the start stays duplicate-free. */
  lemma ChainCloseDistinct(rev: seq<Point>, start: Point)
    requires forall k :: 0 <= k < |rev| ==> rev[k] != start
    requires forall k, l :: 0 <= k < l < |rev| ==> rev[k] != rev[l]
    ensures var path := Reverse(rev + [start]);
            forall i, j :: 0 <= i < j < |path| ==> path[i] != path[j]
  {
    var r := rev + [start];
    var path := Reverse(r);
    forall i, j | 0 <= i < j < |path| ensures path[i] != path[j] {
      assert path[i] == r[|r| - 1 - i] && path[j] == r[|r| - 1 - j];
    }
  }

  /** A chain whose last predecessor is the start yields the whole path. */
  lemma ChainClose(g: Graph, branch: map<Point, Discovery>, time: map<Point, nat>,
                   start: Point, goal: Point, rev: seq<Point>, pathCost: real)
    requires Valid(g) && branch.Keys == time.Keys
    requires forall n :: n in branch ==> WellDiscovered(g, branch, time, start, n)
    requires Chain(g, branch, time, start, goal, rev, pathCost)
    requires branch[rev[|rev| - 1]].pred == start
    ensures var path := Reverse(rev + [start]);
            |path| >= 2 && path[0] == start && path[|path| - 1] == goal && IsWalk(g, path)
            && pathCost == PathCost(g, path)
            && forall i, j :: 0 <= i < j < |path| ==> path[i] != path[j]
  {
    assert WellDiscovered(g, branch, time, start, rev[|rev| - 1]);
    ChainCloseWalk(g, branch, rev, pathCost, start);
    ChainCloseDistinct(rev, start);
  }

  /**
   * Lines 141-148: follow predecessors back from the goal until the start,
   * then reverse.  The chain ends because every predecessor other than the
   * start was discovered strictly earlier.
   */
  method Reconstruct(g: Graph, branch: map<Point, Discovery>, ghost time: map<Point, nat>,
                     start: Point, goal: Point)
    returns (path: seq<Point>, pathCost: real)
    requires Valid(g) && goal in branch && goal != start && branch.Keys == time.Keys
    requires forall n :: n in branch ==> WellDiscovered(g, branch, time, start, n)
    ensures |path| >= 2 && path[0] == start && path[|path| - 1] == goal && IsWalk(g, path)
    ensures pathCost == branch[goal].cost && pathCost == PathCost(g, path)
    ensures forall i, j :: 0 <= i < j < |path| ==> path[i] != path[j]
  {
    var n := goal;
    pathCost := branch[n].cost;
    var rev := [goal];
    assert Reverse(rev) == [goal];
    while branch[n].pred != start
      invariant Chain(g, branch, time, start, goal, rev, pathCost) && n == rev[|rev| - 1]
      decreases time[n]
    {
      ChainStep(g, branch, time, start, goal, rev, pathCost);
      assert WellDiscovered(g, branch, time, start, n);
      rev := rev + [branch[n].pred];
      n := branch[n].pred;
    }
    ChainClose(g, branch, time, start, goal, rev, pathCost);
    path := Reverse(rev + [start]);
  }

  /** The discovery state: visited nodes are exactly the branch keys, each soundly recorded. */
  ghost predicate Discovered(g: Graph, start: Point, visited: set<Point>, branch: map<Point, Discovery>,
                             time: map<Point, nat>, clock: nat)
  {
    Valid(g) && visited == branch.Keys == time.Keys && visited <= g.adj.Keys
    && (forall n :: n in time ==> time[n] < clock)
    && (forall n :: n in branch ==> WellDiscovered(g, branch, time, start, n))
  }

  /**
   * The frontier state: queued nodes are the start or discovered; every
   * discovered node (and the start) has been expanded or is still queued;
   * expanded nodes have all their neighbours discovered; the goal is never
   * expanded.
   */
  ghost predicate Frontier(g: Graph, start: Point, goal: Point, queue: seq<Entry>, visited: set<Point>,
                           branch: map<Point, Discovery>, closed: set<Point>)
  {
    (forall j :: 0 <= j < |queue| ==> queue[j].node == start || queue[j].node in branch)
    && closed <= g.adj.Keys && goal !in closed
    && (forall c, m :: c in closed && Adjacent(g, c, m) ==> m in visited)
    && (forall n :: n in visited || n == start ==> n in closed || InQueue(queue, n))
  }

  /** Discovery times after a pass at time clock: the nodes first seen in it get clock. */
  ghost function Stamp(time0: map<Point, nat>, visited0: set<Point>, visited: set<Point>, clock: nat)
    : (time: map<Point, nat>)
    requires time0.Keys == visited0 <= visited
    ensures time.Keys == visited
    ensures forall k :: k in time0 ==> time[k] == time0[k]
    ensures forall k :: k in visited && k !in visited0 ==> time[k] == clock
  {
    time0 + map k | k in visited && k !in visited0 :: clock
  }

  /** Expanding a discovered node (or the start) discovers its new neighbours soundly. */
  lemma DiscoveredStep(g: Graph, start: Point, current: Point, currentCost: real,
                       visited0: set<Point>, branch0: map<Point, Discovery>, queue0: seq<Entry>,
                       time0: map<Point, nat>, clock: nat,
                       visited: set<Point>, branch: map<Point, Discovery>, queue: seq<Entry>, added: seq<Point>,
                       time: map<Point, nat>)
    requires Discovered(g, start, visited0, branch0, time0, clock)
    requires current in g.adj && (current == start || current in branch0)
    requires currentCost == CostOf(branch0, start, current)
    requires Expanded(g, current, currentCost, visited0, branch0, queue0, visited, branch, queue, added)
    requires time.Keys == visited
    requires forall k :: k in time0 ==> time[k] == time0[k]
    requires forall k :: k in visited && k !in visited0 ==> time[k] == clock
    ensures Discovered(g, start, visited, branch, time, clock + 1)
  {
    assert visited <= g.adj.Keys;
    forall n | n in branch ensures WellDiscovered(g, branch, time, start, n) {
      if n in branch0 {
        assert WellDiscovered(g, branch0, time0, start, n);
        var p := branch0[n].pred;
        assert p != start ==> branch[p] == branch0[p] && time[p] == time0[p];
      } else {
        assert n in added;
        assert current != start ==> branch[current] == branch0[current] && time[current] == time0[current];
      }
    }
  }

  /** Popping entry i and expanding its node keeps the frontier state. */
  lemma FrontierStep(g: Graph, start: Point, goal: Point, before: seq<Entry>, i: nat, currentCost: real,
                     visited0: set<Point>, branch0: map<Point, Discovery>, closed0: set<Point>,
                     visited: set<Point>, branch: map<Point, Discovery>, queue: seq<Entry>, added: seq<Point>)
    requires Valid(g) && Frontier(g, start, goal, before, visited0, branch0, closed0)
    requires i < |before| && before[i].node != goal && before[i].node in g.adj
    requires branch0.Keys == visited0
    requires Expanded(g, before[i].node, currentCost, visited0, branch0, before[..i] + before[i + 1..],
                      visited, branch, queue, added)
    ensures Frontier(g, start, goal, queue, visited, branch, closed0 + {before[i].node})
  {
    var current := before[i].node;
    var popped := before[..i] + before[i + 1..];
    assert |popped| == |before| - 1;
    forall j | 0 <= j < |queue| ensures queue[j].node == start || queue[j].node in branch {
      if j < |popped| {
        assert queue[j] == popped[j];
        if j < i {
          assert popped[j] == before[j];
        } else {
          assert popped[j] == before[j + 1];
        }
      } else {
        assert queue[j].node == added[j - |popped|];
        assert added[j - |popped|] in added;
      }
    }
    forall c, m | c in closed0 + {current} && Adjacent(g, c, m) ensures m in visited {
    }
    forall n | n in visited || n == start ensures n in closed0 + {current} || InQueue(queue, n) {
      if n != current && n !in closed0 {
        if n in added {
          var k :| 0 <= k < |added| && added[k] == n;
          assert queue[|popped| + k].node == n;
        } else {
          assert InQueue(before, n);
          InQueueAfterPop(before, i, n);
          InQueueExtended(popped, queue, n);
        }
      }
    }
  }

  /**
   * Appending the newly discovered nodes keeps each enqueued exactly once,
   * and each pass either discovers a node or shortens the queue.
   */
  lemma EnqueuedStep(g: Graph, start: Point, current: Point, currentCost: real, enqueued0: seq<Point>,
                     visited0: set<Point>, branch0: map<Point, Discovery>, queue0: seq<Entry>,
                     visited: set<Point>, branch: map<Point, Discovery>, queue: seq<Entry>, added: seq<Point>)
    requires Valid(g) && current in g.adj && visited0 <= g.adj.Keys
    requires EnqueuedOnce(start, enqueued0, visited0)
    requires Expanded(g, current, currentCost, visited0, branch0, queue0, visited, branch, queue, added)
    ensures EnqueuedOnce(start, enqueued0 + added, visited)
    ensures |g.adj.Keys - visited| < |g.adj.Keys - visited0|
            || (|g.adj.Keys - visited| == |g.adj.Keys - visited0| && |queue| == |queue0|)
  {
    var e := enqueued0 + added;
    assert e[1..] == enqueued0[1..] + added;
    forall i, j | 1 <= i < j < |e| ensures e[i] != e[j] {
      if j >= |enqueued0| {
        assert e[j] == added[j - |enqueued0|];
        assert added[j - |enqueued0|] in added;
        if i >= |enqueued0| {
          assert e[i] == added[i - |enqueued0|];
        } else {
          assert e[i] == enqueued0[i] && enqueued0[i] in enqueued0[1..];
        }
      } else {
        assert e[i] == enqueued0[i] && e[j] == enqueued0[j];
      }
    }
    assert visited <= g.adj.Keys;
    assert added != [] ==> added[0] in added;
    if visited != visited0 {
      UnvisitedShrinks(g.adj.Keys, visited0, visited);
    }
  }

  /**
   * Once the queue is empty the expanded nodes contain the start and are
   * closed under adjacency, so no walk from the start reaches the goal.
   */
  lemma ExhaustedUnreachable(g: Graph, start: Point, goal: Point, visited: set<Point>,
                             branch: map<Point, Discovery>, closed: set<Point>)
    requires Valid(g) && Frontier(g, start, goal, [], visited, branch, closed)
    ensures forall p :: IsWalk(g, p) && p[0] == start ==> p[|p| - 1] != goal
  {
    assert !InQueue([], start);
    forall c, m | c in closed && Adjacent(g, c, m) ensures m in closed {
      assert !InQueue([], m);
    }
    forall p | IsWalk(g, p) && p[0] == start ensures p[|p| - 1] != goal {
      WalkStaysInside(g, closed, p);
    }
  }

  /** What Expand promises, bundled for the step lemmas of Visit. */
  ghost predicate Expanded(g: Graph, current: Point, currentCost: real,
                           visited: set<Point>, branch: map<Point, Discovery>, queue: seq<Entry>,
                           visited': set<Point>, branch': map<Point, Discovery>, queue': seq<Entry>,
                           added: seq<Point>)
    requires Valid(g) && current in g.adj
  {
    branch'.Keys == visited'
    && (forall x :: x in visited' <==> x in visited || x in g.adj[current])
    && (forall k :: k in branch ==> k in branch' && branch'[k] == branch[k])
    && (forall k :: k in added <==> k in visited' && k !in visited)
    && (forall i, j :: 0 <= i < j < |added| ==> added[i] != added[j])
    && (forall k :: k in added ==>
          Adjacent(g, current, k) && branch'[k] == Discovery(currentCost + g.weight[(current, k)], current))
    && |queue'| == |queue| + |added| && queue'[..|queue|] == queue
    && (forall i :: 0 <= i < |added| ==> queue'[|queue| + i].node == added[i])
  }

  /** The nodes put on the queue: the start, then each discovered node exactly once. */
  ghost predicate EnqueuedOnce(start: Point, enqueued: seq<Point>, visited: set<Point>)
  {
    |enqueued| >= 1 && enqueued[0] == start
    && (forall i, j :: 1 <= i < j < |enqueued| ==> enqueued[i] != enqueued[j])
    && (forall x :: x in enqueued[1..] <==> x in visited)
  }

  /** The nodes of the queue entries, in queue order. */
  function Nodes(q: seq<Entry>): (ns: seq<Point>)
    ensures |ns| == |q| && forall k :: 0 <= k < |q| ==> ns[k] == q[k].node
  {
    seq(|q|, k requires 0 <= k < |q| => q[k].node)
  }

  lemma NodesConcat(a: seq<Entry>, b: seq<Entry>)
    ensures Nodes(a + b) == Nodes(a) + Nodes(b)
  {
  }

  /**
   * The enqueue log after a pass over entry i of before: it extends the old
   * log, and what it gains is, in order, the nodes of the entries appended
   * after the remaining queue.
   */
  ghost predicate Logged(before: seq<Entry>, i: nat, queue: seq<Entry>, enqueued0: seq<Point>, enqueued: seq<Point>)
    requires i < |before|
  {
    |enqueued| >= |enqueued0| && enqueued[..|enqueued0|] == enqueued0
    && |queue| == |before| - 1 + (|enqueued| - |enqueued0|)
    && queue[..|before| - 1] == before[..i] + before[i + 1..]
    && forall k :: |enqueued0| <= k < |enqueued| ==> queue[|before| - 1 + (k - |enqueued0|)].node == enqueued[k]
  }

  /**
   * Popping entry i and appending one entry per added node extends the log
   * by exactly those nodes and keeps every queued node accounted for by it.
   */
  lemma QueuedWithinLog(before: seq<Entry>, i: nat, queue: seq<Entry>, enqueued0: seq<Point>, added: seq<Point>)
    requires i < |before| && multiset(Nodes(before)) <= multiset(enqueued0)
    requires var popped := before[..i] + before[i + 1..];
             |queue| == |popped| + |added| && queue[..|popped|] == popped
             && forall k :: 0 <= k < |added| ==> queue[|popped| + k].node == added[k]
    ensures Logged(before, i, queue, enqueued0, enqueued0 + added)
    ensures multiset(Nodes(queue)) <= multiset(enqueued0 + added)
  {
    var left, right := before[..i], before[i + 1..];
    var popped := left + right;
    var appended := queue[|popped|..];
    assert before == left + [before[i]] + right;
    assert queue == popped + appended;
    NodesConcat(left + [before[i]], right);
    NodesConcat(left, [before[i]]);
    NodesConcat(left, right);
    NodesConcat(popped, appended);
    assert Nodes(appended) == added;
    var e := enqueued0 + added;
    assert e[..|enqueued0|] == enqueued0;
    assert multiset(Nodes(before)) == multiset(Nodes(left)) + multiset{before[i].node} + multiset(Nodes(right));
    assert multiset(Nodes(queue)) == multiset(Nodes(left)) + multiset(Nodes(right)) + multiset(added);
    assert multiset(e) == multiset(enqueued0) + multiset(added);
  }

  /** The result of the search loop: whether the goal was popped, and the branch map built. */
  datatype Exploration = Exploration(found: bool, branch: map<Point, Discovery>)

  /** Every branch entry is sound with respect to the discovery times. */
  ghost predicate SoundBranch(g: Graph, start: Point, branch: map<Point, Discovery>, time: map<Point, nat>)
  {
    Valid(g) && branch.Keys == time.Keys
    && (forall n :: n in branch ==> WellDiscovered(g, branch, time, start, n))
  }

  /**
   * One pass of the loop body at lines 130-139, once the entry at index i
   * is popped and found to be neither the goal nor unknown: expand it, stamp
   * the newly discovered nodes with the round number and carry the loop's
   * invariants over to the new state.  The enqueue log only grows, and what
   * it gains is exactly the nodes of the entries appended to the queue, so
   * every queued node stays accounted for by the log.  Either an unvisited
   * node becomes visited or the queue shrinks by the popped entry.
   */
  method Visit(g: Graph, h: (Point, Point) -> real, start: Point, goal: Point, before: seq<Entry>, i: nat,
               currentCost: real, visited0: set<Point>, branch0: map<Point, Discovery>,
               ghost time0: map<Point, nat>, ghost clock: nat, ghost closed0: set<Point>, ghost enqueued0: seq<Point>)
    returns (visited: set<Point>, branch: map<Point, Discovery>, queue: seq<Entry>,
             ghost time: map<Point, nat>, ghost enqueued: seq<Point>)
    requires Valid(g)
    requires Discovered(g, start, visited0, branch0, time0, clock)
    requires Frontier(g, start, goal, before, visited0, branch0, closed0)
    requires EnqueuedOnce(start, enqueued0, visited0) && multiset(Nodes(before)) <= multiset(enqueued0)
    requires i < |before| && before[i].node != goal && before[i].node in g.adj
    requires currentCost == CostOf(branch0, start, before[i].node)
    ensures Discovered(g, start, visited, branch, time, clock + 1)
    ensures Frontier(g, start, goal, queue, visited, branch, closed0 + {before[i].node})
    ensures EnqueuedOnce(start, enqueued, visited) && multiset(Nodes(queue)) <= multiset(enqueued)
    ensures Logged(before, i, queue, enqueued0, enqueued)
    ensures |g.adj.Keys - visited| < |g.adj.Keys - visited0|
            || (|g.adj.Keys - visited| == |g.adj.Keys - visited0| && |queue| == |before| - 1)
  {
    var current := before[i].node;
    var queue0 := before[..i] + before[i + 1..];
    ghost var added;
    visited, branch, queue, added := Expand(g, h, goal, current, currentCost, visited0, branch0, queue0);
    assert Expanded(g, current, currentCost, visited0, branch0, queue0, visited, branch, queue, added);
    time := Stamp(time0, visited0, visited, clock);
    enqueued := enqueued0 + added;
    DiscoveredStep(g, start, current, currentCost, visited0, branch0, queue0, time0, clock,
                   visited, branch, queue, added, time);
    FrontierStep(g, start, goal, before, i, currentCost, visited0, branch0, closed0, visited, branch, queue, added);
    EnqueuedStep(g, start, current, currentCost, enqueued0, visited0, branch0, queue0,
                 visited, branch, queue, added);
    QueuedWithinLog(before, i, queue, enqueued0, added);
  }

  /**
   * Lines 115-139, the search loop.  It raises only when it pops a start
   * node that is not the goal and not in the graph.  When it stops because
   * the goal was popped, the goal is the start or was discovered; when the
   * queue runs dry, no walk from the start reaches the goal.  The start equal
   * to the goal is popped at once, before anything is discovered.
   */
  method Explore(g: Graph, h: (Point, Point) -> real, start: Point, goal: Point)
    returns (r: Result<Exploration, SearchError>, ghost time: map<Point, nat>, ghost enqueued: seq<Point>)
    requires Valid(g)
    ensures r.Err? <==> start != goal && start !in g.adj
    ensures r.Err? ==> r.error == UnknownNode
    ensures start == goal ==> r == Ok(Exploration(true, map[]))
    ensures r.Ok? ==> SoundBranch(g, start, r.value.branch, time)
    ensures r.Ok? && r.value.found ==> goal == start || goal in r.value.branch
    ensures r.Ok? && !r.value.found ==> forall p :: IsWalk(g, p) && p[0] == start ==> p[|p| - 1] != goal
    ensures EnqueuedOnce(start, enqueued, if r.Ok? then r.value.branch.Keys else {})
  {
    var queue := [Entry(0.0, start)];
    // set(start) builds the set of start's two coordinates, so no node is visited yet
    var visited: set<Point> := {};
    var branch: map<Point, Discovery> := map[];
    time := map[];
    ghost var clock: nat := 0;
    ghost var closed: set<Point> := {};
    enqueued := [start];
    assert queue[0].node == start && InQueue(queue, start);
    assert Nodes(queue) == [start];
    while queue != []
      invariant Discovered(g, start, visited, branch, time, clock)
      invariant Frontier(g, start, goal, queue, visited, branch, closed)
      invariant EnqueuedOnce(start, enqueued, visited) && multiset(Nodes(queue)) <= multiset(enqueued)
      invariant start == goal || start !in g.adj ==> queue == [Entry(0.0, start)] && branch == map[]
      decreases |g.adj.Keys - visited|, |queue|
    {
      var i := MinIndex(queue);
      var item := queue[i];
      var current := item.node;
      var currentCost := if current == start then 0.0 else branch[current].cost;
      if current == goal {
        return Ok(Exploration(true, branch)), time, enqueued;
      }
      if current !in g.adj {
        return Err(UnknownNode), time, enqueued;
      }
      visited, branch, queue, time, enqueued := Visit(g, h, start, goal, queue, i, currentCost,
                                                      visited, branch, time, clock, closed, enqueued);
      clock := clock + 1;
      closed := closed + {current};
    }
    // the queue ran dry: every node reached from the start was popped, and the goal never was
    ExhaustedUnreachable(g, start, goal, visited, branch, closed);
    r := Ok(Exploration(false, branch));
  }

  /**
   * Lines 107-153.  On success the path runs from start to goal along graph
   * edges, visits no node twice, and its cost is the sum of its edge weights
   * (which, as costs are never relaxed, need not be least).  On failure the
   * path is empty, the cost 0, and no walk leads from start to goal.  A start
   * equal to the goal, or outside the graph, raises.  `enqueued` lists the
   * nodes put on the queue in order: the start first, then every other node
   * at most once (the start itself may come back once among them).
   */
  method AStar(g: Graph, h: (Point, Point) -> real, start: Point, goal: Point)
    returns (r: Result<Route, SearchError>, ghost enqueued: seq<Point>)
    requires Valid(g)
    ensures start == goal ==> r == Err(MissingBranchEntry)
    ensures start != goal && start !in g.adj ==> r == Err(UnknownNode)
    ensures r.Err? ==> start == goal || start !in g.adj
    ensures r.Ok? && r.value.path != [] ==>
              var p := r.value.path;
              |p| >= 2 && p[0] == start && p[|p| - 1] == goal && IsWalk(g, p)
              && r.value.cost == PathCost(g, p)
              && forall i, j :: 0 <= i < j < |p| ==> p[i] != p[j]
    ensures r.Ok? && r.value.path == [] ==>
              r.value.cost == 0.0 && forall p :: IsWalk(g, p) && p[0] == start ==> p[|p| - 1] != goal
    ensures |enqueued| >= 1 && enqueued[0] == start
    ensures forall i, j :: 1 <= i < j < |enqueued| ==> enqueued[i] != enqueued[j]
  {
    var e;
    ghost var time;
    e, time, enqueued := Explore(g, h, start, goal);
    if e.Err? {
      return Err(e.error), enqueued;
    }
    if !e.value.found {
      return Ok(Route([], 0.0)), enqueued;
    }
    var branch := e.value.branch;
    if goal !in branch {
      return Err(MissingBranchEntry), enqueued;
    }
    var path, pathCost := Reconstruct(g, branch, time, start, goal);
    r := Ok(Route(path, pathCost));
  }

  /** The graph of the two edges a - b and b - c. */
  function PathOfThree(a: Point, b: Point, c: Point): Graph
  {
    AddEdge(AddEdge(EmptyGraph(), a, b, 1.0), b, c, 1.0)
  }

  /** Its adjacency, spelled out: a and c each see only b, and b sees both. */
  lemma PathOfThreeShape(a: Point, b: Point, c: Point)
    ensures Valid(PathOfThree(a, b, c)) && ShapedAsThree(PathOfThree(a, b, c), a, b, c)
  {
    var g0 := EmptyGraph();
    assert forall n, m :: !Adjacent(g0, n, m);
    var g1 := AddEdge(g0, a, b, 1.0);
    assert forall n, m :: Adjacent(g1, n, m) <==> (n == a && m == b) || (n == b && m == a);
  }

  /** The adjacency of three nodes a - b - c joined by two edges and no edge a - c. */
  ghost predicate ShapedAsThree(g: Graph, a: Point, b: Point, c: Point)
  {
    forall n, m :: Adjacent(g, n, m) <==>
      (n == a && m == b) || (n == b && m == a) || (n == b && m == c) || (n == c && m == b)
  }

  /**
   * In a graph shaped a - b - c (such as PathOfThree), every duplicate-free
   * walk from a to c is [a, b, c], and its cost is the sum of the two edge
   * weights.  ThreeNodeRun draws the consequence for AStar.
   */
  lemma ThreeNodeScenario(g: Graph, a: Point, b: Point, c: Point)
    requires a != b && b != c && a != c
    requires Valid(g) && ShapedAsThree(g, a, b, c)
    ensures IsWalk(g, [a, b, c]) && PathCost(g, [a, b, c]) == g.weight[(a, b)] + g.weight[(b, c)]
    ensures forall p :: (IsWalk(g, p) && p[0] == a && p[|p| - 1] == c
                         && forall i, j :: 0 <= i < j < |p| ==> p[i] != p[j])
                        ==> p == [a, b, c]
  {
    assert Adjacent(g, a, b) && Adjacent(g, b, c);
    assert [a, b, c][1..] == [b, c] && [b, c][1..] == [c];
    assert PathCost(g, [c]) == 0.0;
    assert PathCost(g, [b, c]) == g.weight[(b, c)];
    forall p | IsWalk(g, p) && p[0] == a && p[|p| - 1] == c
               && (forall i, j :: 0 <= i < j < |p| ==> p[i] != p[j])
      ensures p == [a, b, c]
    {
      assert Adjacent(g, p[0], p[1]);
      assert Adjacent(g, p[1], p[2]);
    }
  }

  /**
   * AStar on any graph shaped a - b - c, whatever the heuristic: the route
   * found from a to c is [a, b, c], and its cost is the sum of the two edge
   * weights.
   */
  method ThreeNodeRun(g: Graph, h: (Point, Point) -> real, a: Point, b: Point, c: Point)
    returns (r: Result<Route, SearchError>)
    requires a != b && b != c && a != c
    requires Valid(g) && ShapedAsThree(g, a, b, c)
    ensures r == Ok(Route([a, b, c], g.weight[(a, b)] + g.weight[(b, c)]))
  {
    ThreeNodeScenario(g, a, b, c);
    ghost var enqueued;
    r, enqueued := AStar(g, h, a, c);
    assert Adjacent(g, a, b);
  }
}
